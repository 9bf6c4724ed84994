# Model of a PDF validator's parsing and checking core

The repository parses PDF files and checks them against conformance profiles. This project models its
core and proves what it computes:

- **Stream filters** (`Bits`, `Lzw`, `AsciiFilters`, `Ascii85`, `Predictors`, `TiffSamples`, `FilterChain`,
  `FilterTables`). Each decoder and predictor is a method with the original's loops, proved equal to a function of
  its input. The encoders are written from the standards, with nothing of the decoders in them, and the theorems
  say that the decoders invert them.
- **The byte parser** (`Source`, `CosParsing`, `FileParsing`, `ByteParser`, `StandardTables`, `TableLaws`,
  `FileTables`). `ByteParser` is the cursor class.
  Its methods are proved against functions of the bytes from the cursor on. `CosSyntax` describes everything
  that can be written, by the tables of `StandardTables`; `CosTokens`, `CosRoundTrip`, `LiteralStrings`, `CosLimits`, `FileRoundTrip` and
  `XrefRoundTrip` prove when it is read back, up to whole files, and what every input leads to. A source is a
  byte sequence in one of two representations, in memory or spilled.
- **The rule language** (`Rules`, `RuleParsing`, `ExprParser`, `RuleSyntax`, `RuleTokens`, `RuleRoundTrip`,
  `RuleLambdas`, `RulePrinting`, `RulePanics`, `RuleTables`, `Evaluation`, `RuleEvaluator`, `RuleMeaning`). A
  recursive-descent parser with its round trip and the texts on which it slices out of range, and an evaluator with
  two budgets that refines the meaning of expressions, which `RuleMeaning` tells clause by clause. Properties, regular expressions and parse facts
  are any functions of the environment.
- **The structure tree and the page tree** (`StructureTree`, `StructureWalk`, `StructureReach`, `PageTree`,
  `PageOrder`). Explicit-stack walks of arbitrary object graphs against recursive ones, and what they find, told
  from the dictionaries alone.
- **Content streams** (`ContentParsing`, `ContentTokenizer`, `ContentSyntax`, `ContentRoundTrip`, `MarkedContent`,
  `MarkedState`, `ContentMeaning`, `ContentTables`, `ContentSummary`). A tokenizer class, and the summary with its operand
  buffer and marked-content stack, against what the bytes say.
- **The standard security handler** (`Encryption`, `PasswordKeys`, `Revision6Keys`, `KeyLaws`). Ciphers and hashes are any
  functions with the right lengths and, under keys of a length the cipher takes, an inverse law.

`dafny verify dfyconfig.toml` checks everything. Integers are unbounded and every width of the original (32-bit
depths and counters, 64-bit integers, 16-bit codes) is written out; saturating and checked arithmetic is
modelled where it can be reached.

## Where the code and the standard or its own promise part

Each of these is a theorem with the exact condition:

- a password of 1 to 31 bytes is padded with the wrong part of the padding string
  (`PasswordKeys.PaddingMeetsStandardIff`);
- octal escapes, joined lines and carriage returns in literal strings are not read as the standard says
  (`LiteralStrings.LiteralMeetsIsoIff`);
- `[1 70000]` is refused, because the reference lookahead after an integer reads an unsigned 16-bit number
  (`CosRoundTrip.ParseUndoesPrintIff`);
- dropping an Identity Crypt filter, or an item that is no name, shifts the filters against `DecodeParms`
  (`FilterChain.AlignedIff`);
- the TIFF predictor adds bytes where the standard adds components: carries are lost or added, and pixels that
  are not whole bytes are read from the wrong place (`TiffSamples.UnTiffRestoresImageIff`,
  `TiffSamples.OneComponentIff`);
- data without a usable length are cut at a keyword inside them, and lose a last byte that merges with the end
  of line before `endstream` (`Source.ScanRecoversDataIff`);
- a cross-reference table whose lines end in a carriage return and a line feed is recorded as malformed
  (`XrefRoundTrip.InStepIff`, `XrefRoundTrip.SubsectionsRead`);
- nothing behind the first end-of-file marker is read, so of an updated file only what stands in front of it
  counts, and a `startxref` number of more than 32 bits refuses the file (`XrefRoundTrip.WholeFileParses`);
- AESV2 is accepted with file keys that are too short for it, and then nothing can be decrypted
  (`Encryption.ObjectRestoredIff`, `Encryption.ShortKeyOpensNothing`);
- `DCT` and `CCF`, abbreviations of table 94, run no decoder (`FilterTables.DecoderByTable`);
- a single `DecodeParms` dictionary serves the first kept filter only (`FilterTables.ParamsGiven`), but every
  position when Crypt filters are looked for (`FilterTables.IdentityCryptIff`);
- `d0` and `d1` of Type 3 glyphs are recorded as unknown operators (`ContentTables.UnknownByTable`);
- white space between `~` and `>` is refused (`Ascii85.TildeEndsDataIff`);
- a string, regex or lambda with a character beyond ASCII before its end is sliced out of range
  (`RulePanics.StringPanicsIff`, `RulePanics.RegexPanicsIff`, `RulePanics.ContentPanicsIff`,
  `RulePrinting.EveryWritableExpressionRoundTrips`);
- a lambda that compares its parameter with a lone quotation mark is sliced out of range
  (`RulePanics.LambdaPanicsIff`);
- names that begin with `true`, `false` or `null` are cut in rules (`RulePrinting.NameIsPropertyIff`);
- the content items of a structure element come out in reverse order (`StructureWalk.ContentInOrderIff`);
- a role chain of more than 31 steps is reported circular (`StructureWalk.NormalizeRole`);
- a stray closing delimiter in a content stream is reported as an operator name over its length cap
  (`ContentRoundTrip.OperatorNameErrorIff`);
- comments inside the arrays and dictionaries of a content stream are read as content
  (`ContentRoundTrip.CommentReadAsContent`);
- inline image data that contain a lone `EI` are cut there (`ContentRoundTrip.ImageReadIff`).

## Model

| member | source | states |
|---|---|---|
| Lzw.BuildInitialDictionary | crates/core/src/parser.rs:3014-3023 | the table a clear code restores: 256 single bytes, then two reserved codes that stand for nothing |
| Lzw.DecodeLzw | crates/core/src/parser.rs:2953-3012 | the decoding loop, as the run of its steps over the bits left; output within the cap; neither empty-entry error can be returned |
| Lzw.AdvanceKeepsValid | crates/core/src/parser.rs:2964-3010 | no 12-bit code, valid or not, puts the next code, the table length and the code width out of step, takes output past the cap, or reaches an empty-entry error |
| Lzw.EveryRunKeepsInvariants | crates/core/src/parser.rs:2958-3011 | after every run of codes the step invariants hold, and every learned entry is a contiguous piece of the output since the last clear code |
| Lzw.DataCodeInStep | crates/core/src/parser.rs:2973-3008 | the decoder is one entry behind any conforming encoder and writes the encoder's string, also when the code is the entry it is about to complete |
| Lzw.DecodeUndoesEncode | crates/core/src/parser.rs:2953-3065 | any code stream a conforming encoder may emit under section 7.4.4 of ISO 32000-1 (any table match, clear codes anywhere), each code as wide as the value of `EarlyChange` says (a bit wider once entry 511, 1023 or 2047 is in use when it is 0, one code sooner otherwise), packed high bit first and followed by anything after its end code, decodes to exactly the data |
| Lzw.EveryByteStringRoundTrips | crates/core/src/parser.rs:2953-3065 | every byte string has such a stream for every value of `EarlyChange`, so the round trip is about every byte string |
| Lzw.RunOnlyAppends | crates/core/src/parser.rs:2710-2723 | decoding only ever adds to the output |
| Lzw.NarrowEodAtWidthChange | crates/core/src/parser.rs:2964-3005 | an end code written one bit too narrow at a width change is understood exactly when no bit follows it |
| Bits.MsbBitReader.ReadBits | crates/core/src/parser.rs:3035-3064 | takes the next bits, high bit first, as a 16-bit number; takes nothing when too few are left |
| Bits.PackedBitAt | crates/core/src/parser.rs:3805-3826 | bit k of the packed bytes is bit k of the code stream, then zeros |
| Bits.UnpackPack | crates/core/src/parser.rs:3030-3065 | unpacking undoes packing with at most seven filler bits before what follows |
| AsciiHex.DecodeAsciiHex | crates/core/src/parser.rs:2456-2499 | the decoding loop, as the function of the input whose inverse is proved below; within the cap |
| AsciiHex.DecodeUndoesSpelling | crates/core/src/parser.rs:2456-2499 | any spelling of the data (either case, white space anywhere, odd final digit, end mark and trailing bytes) decodes to it |
| AsciiHex.DecodedAtMostHalf | crates/core/src/parser.rs:2456-2499 | the output is at most half the input, rounded up, for every input |
| RunLength.RepeatByte | crates/core/src/parser.rs:2596-2599 | one byte at a time up to the cap: fails exactly when the run does not fit |
| RunLength.DecodeRunLength | crates/core/src/parser.rs:2563-2608 | the decoding loop, as the function whose inverse is proved below; within the cap |
| RunLength.DecodeUndoesEncode | crates/core/src/parser.rs:2563-2608 | every valid sequence of literal and repeat runs (section 7.4.5 of ISO 32000-1), ended or not, decodes to what the runs mean |
| RunLength.EveryByteStringEncodes | crates/core/src/parser.rs:2563-2608 | every byte string has such an encoding |
| RunLength.DecodedAtMost64Times | crates/core/src/parser.rs:2563-2608 | the output is at most 64 times the input, for every input |
| Ascii85.AppendAscii85Group | crates/core/src/parser.rs:2671-2693 | a group of five digits as the high bytes of its base-85 value, refused when a 32-bit accumulator overflows on the way |
| Ascii85.DecodeAscii85 | crates/core/src/parser.rs:2504-2558 | the decoding loop, as the function whose inverse is proved below; within the cap |
| Ascii85.PaddingIsHarmless | crates/core/src/parser.rs:2541-2552 | filling a partial group of n+1 digits up with digit 84 never overflows 32 bits and never reaches its n high bytes |
| Ascii85.DecodeUndoesEncode | crates/core/src/parser.rs:2504-2558 | the encoding of every byte string (section 7.4.3 of ISO 32000-1, `z` groups and partial group included), with any white space in it and anything after the end mark, decodes to it |
| Ascii85.TildeEndsDataIff | crates/core/src/parser.rs:2515-2520 | white space is skipped everywhere but inside the end mark: a tilde ends the data exactly when `>` is the very next byte |
| Predictors.GeometryIsTotal | crates/core/src/parser.rs:2740-2778 | the row geometry fails exactly on a zero count; it never overflows, and rows are never shorter than a pixel |
| Predictors.GeometryIsLeast | crates/core/src/parser.rs:2740-2778 | rows and pixels are the least whole numbers of bytes that hold their bits |
| Predictors.PaethIsFirstClosest | crates/core/src/parser.rs:2936-2951 | Paeth returns the first of left, up, up-left that is closest to the estimate |
| Predictors.UnfilterRowInto | crates/core/src/parser.rs:2849-2904 | one row rebuilt in place from bytes it has just written; refused exactly for a filter above 4 |
| Predictors.UnfilterRows | crates/core/src/parser.rs:2830-2906 | the loop over rows, writing into one buffer, leaves the rows the filters mean |
| Predictors.ApplyPngPredictor | crates/core/src/parser.rs:2814-2907 | the whole PNG predictor with its size checks; output within the cap |
| Predictors.UnPngUndoesFilter | crates/core/src/parser.rs:2814-2951 | for every geometry, image of whole rows and choice of filter per row, it restores what the five filters of section 9 of ISO/IEC 15948 took away: nothing, the left, the above, half of their sum rounded down, or the neighbour closest to left plus above minus above-left, the first of several |
| Predictors.PredictsExpected | crates/core/src/parser.rs:2909-2951 | each prediction is what the standard's filter of that number expects |
| Predictors.UndifferenceRowInPlace | crates/core/src/parser.rs:2796-2809 | one row in place: each byte from the second pixel on gets the byte one pixel to its left; the other rows stay |
| Predictors.UndifferenceInPlace | crates/core/src/parser.rs:2795-2811 | the in-place loop over all rows |
| Predictors.ApplyTiffPredictor | crates/core/src/parser.rs:2780-2812 | the whole TIFF predictor with its size checks |
| Predictors.UnTiffUndoesDifference | crates/core/src/parser.rs:2780-2812 | it undoes byte-wise horizontal differencing of every image of whole rows, which is the differencing the code inverts at every width |
| TiffSamples.UnTiffRestoresImageIff | crates/core/src/parser.rs:2780-2812 | for components of 1, 2, 4, 8 and 16 bits, an image of whole rows differenced sample by sample as section 14 of TIFF 6.0 says comes back exactly when each row does; a row of 16-bit samples exactly when no low byte decreases from a sample to the one a pixel later, any other exactly when, in every byte, what stands one pixel to the left of a sample is the sample at its place one pixel's bytes to the left plus the carry from the samples behind it: the code adds bytes |
| TiffSamples.WholeBytePixelsIff | crates/core/src/parser.rs:2780-2812 | where pixels are whole bytes that condition is that no sample but the first of its byte is smaller than the one a pixel before, which 8-bit components always meet |
| TiffSamples.OneComponentIff | crates/core/src/parser.rs:2780-2812 | with one component of 1 or 2 bits it is that all samples of the row but the last are zero, whatever fills the last byte |
| TiffSamples.OneBitRowIsNotRestored | crates/core/src/parser.rs:2780-2812 | one row of eight 1-bit pixels that comes back as another |
| Predictors.ApplyPredictor | crates/core/src/parser.rs:2725-2738 | which predictor number selects what; 2 is TIFF, 10 to 15 PNG, 1 none, others refused |
| FilterChain.KeptFiltersAt | crates/core/src/parser.rs:2327-2342 | the filters kept are the names in the array whose Crypt parameters do not name Identity, in order; what is no name is left out as well |
| FilterChain.AlignedIff | crates/core/src/parser.rs:2375-2388 | the parameter array is not thinned out with the filters: every kept filter gets its own parameters exactly when those at its index among the kept are the same; always when what is dropped (an Identity Crypt filter, or an item that is no name) stands behind all of them, and only then unless a dropped item that is no name happens to have the parameters of a later filter |
| FilterChain.NullShiftsParams | crates/core/src/parser.rs:2327-2388 | a null in front of a filter, and the filter is read with the default parameters whatever its own are |
| FilterTables.DecoderByTable | crates/core/src/parser.rs:370-397 | each name of table 6 of ISO 32000-1, and each of the five known abbreviations of table 94, runs its decoder, and no other name runs one |
| FilterTables.ParamsByTable | crates/core/src/parser.rs:2390-2412 | each parameter is its entry when that is an integer of its width, and otherwise the default of table 8 |
| FilterTables.ParamsGiven | crates/core/src/parser.rs:2375-2388 | what a kept filter is given: a single dictionary only for the first, an array by position, otherwise the defaults |
| FilterTables.IdentityCryptIff | crates/core/src/parser.rs:2344-2373 | a filter is an Identity Crypt filter exactly when it is called `Crypt` and its parameters, one dictionary for all or those at its position, name `Identity` |
| FilterTables.SingleFilterKept | crates/core/src/parser.rs:2327-2342 | the only filter of a stream is kept unless it is one |
| FilterChain.RunDecoder | crates/core/src/parser.rs:2438-2669 | which decoder and predictor each filter name runs |
| FilterChain.DecodedBytes | crates/core/src/parser.rs:815-854 | the loop over filters; one fact per filter, result within the cap |
| FilterChain.DecodeUndoesEncoding | crates/core/src/parser.rs:2438-2669 | each decoder with its predictor undoes any valid encoding for it: LZW, both ASCII filters, run lengths, Flate for any data that inflation gives back within the cap, the PNG rows and the TIFF rows; a filter that is recorded only passes its data on with its fact |
| FilterChain.ChainUndoesEncoders | crates/core/src/parser.rs:815-854 | the whole chain, over any of these filters and predictors, undoes valid encoders applied in reverse order, and each recorded output length is the next recorded input length |
| Source.FindBytes | crates/core/src/parser.rs:2106-2112 | the first occurrence of the needle, or none |
| Source.FindBytesInSpillFile | crates/core/src/parser.rs:340-369 | for every source, range and chunk size of at least one, the chunked search finds what the plain one finds on the slice, matches over any number of chunks included |
| Source.FindInStorage | crates/core/src/parser.rs:276-288 | both representations of a source give the same answer, bad ranges included |
| Source.StreamSourceBytes | crates/core/src/parser.rs:290-316 | the raw bytes of a stream are the same slice of the source in both representations |
| Source.FindStreamExtent | crates/core/src/parser.rs:1710-1748 | the end of the data and the keyword position, from the declared length or by scanning |
| Source.ExtentIsWellFormed | crates/core/src/parser.rs:1710-1755 | whatever the dictionary says, the range found is in order, inside the source and the cap, and ends at most one end of line before a keyword |
| Source.RightLengthRecoversData | crates/core/src/parser.rs:1720-1728 | with a right length the data come back exactly, even when they contain the keyword |
| Source.ScanStopsAtFirstKeyword | crates/core/src/parser.rs:1729-1747 | without a usable length the data end at the first keyword in the scan window, one end of line trimmed |
| Source.KeywordDoesNotStraddle | crates/core/src/parser.rs:2106-2112 | `endstream` cannot begin inside data that do not contain it |
| Source.ScanRecoversDataIff | crates/core/src/parser.rs:1710-1748 | data written without a length, or with a length that leads to no keyword, come back exactly when they do not contain the keyword and the end of line before it does not merge with their own last byte |
| ByteParsing.ByteParser.ParseObject | crates/core/src/parser.rs:1431-1465 | one object from the cursor on, or the same error; dispatch on the first bytes: the cursor and the result agree with the function of the bytes that the theorems below are about |
| ByteParsing.ByteParser.ParseArray | crates/core/src/parser.rs:1491-1512 | the array loop with its length cap: the cursor and the result agree with the function of the bytes that the theorems below are about |
| ByteParsing.ByteParser.ParseDictionary | crates/core/src/parser.rs:1467-1489 | the dictionary loop with its entry cap; a repeated key keeps its last value: the cursor and the result agree with the function of the bytes that the theorems below are about |
| ByteParsing.ByteParser.ParseName | crates/core/src/parser.rs:1514-1543 | names with `#` escapes under the name cap: the cursor and the result agree with the function of the bytes that the theorems below are about |
| ByteParsing.ByteParser.ParseLiteralString | crates/core/src/parser.rs:1545-1590 | literal strings: nesting, the known escapes, the string cap: the cursor and the result agree with the function of the bytes that the theorems below are about |
| ByteParsing.ByteParser.ParseHexString | crates/core/src/parser.rs:1592-1622 | hexadecimal strings, odd digit padded with zero: the cursor and the result agree with the function of the bytes that the theorems below are about |
| ByteParsing.ByteParser.ParseNumberToken | crates/core/src/parser.rs:1657-1694 | integers within 64 bits, and reals, kept as their digits, that do not round to infinity: the cursor and the result agree with the function of the bytes that the theorems below are about |
| ByteParsing.ByteParser.ParseNumberOrReference | crates/core/src/parser.rs:1624-1655 | the `n g R` lookahead, backtracking to the end of the first number: the cursor and the result agree with the function of the bytes that the theorems below are about |
| ByteParsing.ByteParser.ParseUnsigned | crates/core/src/parser.rs:1969-1994 | an optional unsigned number, an error when it is out of range: the cursor and the result agree with the function of the bytes that the theorems below are about |
| ByteParsing.ByteParser.ParseFixedDigits | crates/core/src/parser.rs:1956-1967 | exactly so many digits, moving past them only when they are there: the cursor and the result agree with the function of the bytes that the theorems below are about |
| ByteParsing.ByteParser.SkipWsAndComments | crates/core/src/parser.rs:1996-2010 | white space and comments, but not the end-of-file marker: the cursor and the result agree with the function of the bytes that the theorems below are about |
| ByteParsing.ByteParser.PushFact | crates/core/src/parser.rs:1924-1938 | facts beyond the cap are dropped and the drop is remembered: the cursor and the result agree with the function of the bytes that the theorems below are about |
| ByteParsing.ByteParser.ParseStream | crates/core/src/parser.rs:1696-1788 | the stream with its extent, filters and raw bytes; its two facts: the cursor and the result agree with the function of the bytes that the theorems below are about |
| ByteParsing.ByteParser.ParseIndirectObject | crates/core/src/parser.rs:1387-1429 | header, body, optional `endobj`; backtracks when there is no header: the cursor and the result agree with the function of the bytes that the theorems below are about |
| ByteParsing.ByteParser.ParseXrefEntries | crates/core/src/parser.rs:1818-1844 | one subsection of entries, counted against the cap: the cursor and the result agree with the function of the bytes that the theorems below are about |
| ByteParsing.ByteParser.ParseXrefSubsections | crates/core/src/parser.rs:1798-1845 | all subsections up to the trailer: the cursor and the result agree with the function of the bytes that the theorems below are about |
| ByteParsing.ByteParser.PushXrefChainFacts | crates/core/src/parser.rs:1898-1922 | the facts about `Prev` and `XRefStm`: the cursor and the result agree with the function of the bytes that the theorems below are about |
| ByteParsing.ByteParser.ParseXrefAndTrailer | crates/core/src/parser.rs:1790-1877 | a cross-reference section and its trailer: the cursor and the result agree with the function of the bytes that the theorems below are about |
| ByteParsing.ByteParser.ParsePostEofFact | crates/core/src/parser.rs:1879-1896 | how many bytes follow the end-of-file marker, trailing white space aside: the cursor and the result agree with the function of the bytes that the theorems below are about |
| ByteParsing.ByteParser.ParseTopLevelObjects | crates/core/src/parser.rs:1013-1067 | the file loop: the objects, trailers and facts that the bytes determine, on every input, with every round advancing: the cursor and the result agree with the function of the bytes that the theorems below are about |
| CosTokens.NameTokenParses | crates/core/src/parser.rs:1514-1543 | a name spelled in any mixture of bytes that are regular by tables 1 and 2 of ISO 32000-1 and of hexadecimal escapes is read as its bytes exactly when it fits the cap |
| CosTokens.LiteralStringParses | crates/core/src/parser.rs:1545-1590 | any nested literal string is read as its bytes exactly when the caps allow it |
| CosTokens.HexStringParses | crates/core/src/parser.rs:1592-1622 | any hexadecimal string, white space anywhere, is read as its bytes exactly when it fits the cap |
| CosTokens.RealTokenParses | crates/core/src/parser.rs:1657-1694 | a real number in any spelling is read as it is written exactly when it stays finite as a 64-bit float |
| CosTokens.IntegerParses | crates/core/src/parser.rs:1624-1655 | what an integer is read as in front of anything: refused before an unsigned number above 65535, a reference before `g R` unless it is 0 |
| CosTokens.ReferenceParses | crates/core/src/parser.rs:1624-1655 | every spelling of a reference is read as that reference |
| CosTokens.DecimalIsPositional | crates/core/src/parser.rs:1657-1694 | digits are a number by their places, the first counting most, and only a minus sign negates it |
| TableLaws.CharacterClasses | crates/core/src/parser.rs:2080-2110 | white space, delimiters, regular characters and hexadecimal digits are those of section 7.2.2 of ISO 32000-1, in the object parser and in content streams |
| TableLaws.Punctuation | crates/core/src/parser.rs:1427-1622 | the bytes the parsers look for are the characters they stand for |
| TableLaws.Words | crates/core/src/parser.rs:1013-1067 | so are their keywords |
| TableLaws.FiniteIff | crates/core/src/parser.rs:1657-1694 | a number is finite exactly when its whole part is below 2^1024 - 2^970 |
| CosRoundTrip.NoReferenceInArray | crates/core/src/parser.rs:1491-1512 | no item of a printed array can be taken with the next for a reference |
| CosRoundTrip.ObjectParses | crates/core/src/parser.rs:1431-1694 | any printed stream-free object is read as its value with the cursor behind it, or refused, according to a condition on the tree alone |
| CosRoundTrip.ParseUndoesPrintIff | crates/core/src/parser.rs:1431-1694 | printing an object (any spelling, white space and comments by the tables of section 7.2.2, reals included) and parsing it gives it back with the cursor at its end exactly when the limits hold, reals are finite and no integer is directly followed by an unsigned number above 65535 |
| LiteralStrings.CodeMeetsIsoIff | crates/core/src/parser.rs:1551-1565 | the parser's reading of a string body is section 7.3.4.2 of ISO 32000-1 exactly when it has no octal escape, no joined lines and no carriage return |
| LiteralStrings.LiteralMeetsIsoIff | crates/core/src/parser.rs:1545-1590 | the same for whole literal strings as parsed |
| CosLimits.ParsedIsWithin | crates/core/src/parser.rs:1431-1622 | every object parsed from any bytes is within the depth, array, dictionary, name and string limits |
| CosLimits.ParserProducesIff | crates/core/src/parser.rs:1431-1694 | some text is parsed to an object exactly when the object is within the limits |
| FileRoundTrip.StreamParses | crates/core/src/parser.rs:1696-1788 | a stream written with its right length is read with exactly its data and with how its keywords were spaced, cursor behind `endstream` |
| FileRoundTrip.PartParses | crates/core/src/parser.rs:1387-1429 | a written indirect object is read with its key, its offset and what it holds |
| FileRoundTrip.FileParses | crates/core/src/parser.rs:1013-1067 | objects written one after the other up to an end-of-file marker are all in the store, a later one replacing an earlier one with its key, and nothing else is |
| FileRoundTrip.PartsParse | crates/core/src/parser.rs:1013-1067 | the same in front of anything: the file loop goes on behind the objects with exactly them in its store and exactly their length and spacing facts |
| XrefRoundTrip.SubsectionsRead | crates/core/src/parser.rs:1798-1845 | any subsections of conforming 20-byte entries are read up to the trailer; they count as compliant exactly when every entry is in step, and they are refused exactly when there are too many |
| XrefRoundTrip.InStepIff | crates/core/src/parser.rs:1818-1844 | entries are in step exactly when neither the heading nor any entry but the last ends in a carriage return and a line feed, of which the line skipper takes only the first |
| XrefRoundTrip.CrLfTableIsMalformed | crates/core/src/parser.rs:1812-1845 | a conforming table of one entry with such line ends, recorded as malformed |
| XrefRoundTrip.SectionReads | crates/core/src/parser.rs:1790-1877 | a cross-reference section with its trailer is read whole: its fact, the facts of the trailer's chain, and the trailer with its dictionary and offset |
| XrefRoundTrip.OffsetPassed | crates/core/src/parser.rs:1024-1067 | the number behind `startxref` is passed over digit by digit as no object, and refused exactly when it needs more than 32 bits |
| XrefRoundTrip.WholeFileParses | crates/core/src/parser.rs:1013-1067 | a file of the classic form (objects, table, trailer, `startxref`, end-of-file marker) is read to exactly its objects, its trailer and its facts, whatever follows the marker; the three conditions under which it is refused, and with which error |
| FileTables.DeclaredLengthIs | crates/core/src/parser.rs:1710-1713 | the declared length of a stream is its `Length` when that is an integer from zero on |
| FileTables.ChainFactsAre | crates/core/src/parser.rs:1898-1922 | `Prev` and `XRefStm` are recorded in this order, and a negative one refuses the trailer |
| FileTables.PostEofIs | crates/core/src/parser.rs:1879-1896 | data behind the end-of-file marker are counted without the white space at their end |
| FileRoundTrip.EveryFileStaysWithinLimits | crates/core/src/parser.rs:1013-1067 | whatever the file, the store never exceeds its cap and every object, stream, trailer dictionary (depth, lengths and names included) and fact is within the limits, or parsing ends with an error |
| FileRoundTrip.RepresentationDoesNotMatter | crates/core/src/parser.rs:254-316 | a spilled source and one in memory lead to the same objects, trailers, facts and errors, but for where raw bytes are kept |
| ExprParsing.ParseImportedExpr | crates/core/src/profile.rs:3282-3294 | a whole text is one expression, nothing after it: the result (an expression, a refusal or a slice out of range) and the offset agree with the function of the text that the theorems below are about; terminates on every text |
| ExprParsing.ExprParser.ParseConditional | crates/core/src/profile.rs:3332-3348 | the ternary operator: the result (an expression, a refusal or a slice out of range) and the offset agree with the function of the text that the theorems below are about; terminates on every text |
| ExprParsing.ExprParser.ParseOr | crates/core/src/profile.rs:3350-3361 | `||` from left to right: the result (an expression, a refusal or a slice out of range) and the offset agree with the function of the text that the theorems below are about; terminates on every text |
| ExprParsing.ExprParser.ParseAnd | crates/core/src/profile.rs:3363-3374 | `&&` from left to right: the result (an expression, a refusal or a slice out of range) and the offset agree with the function of the text that the theorems below are about; terminates on every text |
| ExprParsing.ExprParser.ParseComparison | crates/core/src/profile.rs:3376-3403 | at most one comparison: the result (an expression, a refusal or a slice out of range) and the offset agree with the function of the text that the theorems below are about; terminates on every text |
| ExprParsing.ExprParser.ParseBitwiseAnd | crates/core/src/profile.rs:3405-3419 | `&` but not `&&`: the result (an expression, a refusal or a slice out of range) and the offset agree with the function of the text that the theorems below are about; terminates on every text |
| ExprParsing.ExprParser.ParseShift | crates/core/src/profile.rs:3421-3431 | shifts: the result (an expression, a refusal or a slice out of range) and the offset agree with the function of the text that the theorems below are about; terminates on every text |
| ExprParsing.ExprParser.ParseAdditive | crates/core/src/profile.rs:3433-3452 | `+` and `-`: the result (an expression, a refusal or a slice out of range) and the offset agree with the function of the text that the theorems below are about; terminates on every text |
| ExprParsing.ExprParser.ParseMultiplicative | crates/core/src/profile.rs:3454-3475 | `*`, `/` and `%`: the result (an expression, a refusal or a slice out of range) and the offset agree with the function of the text that the theorems below are about; terminates on every text |
| ExprParsing.ExprParser.ParseUnary | crates/core/src/profile.rs:3477-3486 | `!`: the result (an expression, a refusal or a slice out of range) and the offset agree with the function of the text that the theorems below are about; terminates on every text |
| ExprParsing.ExprParser.ParsePostfix | crates/core/src/profile.rs:3488-3507 | members, `.length` and method calls: the result (an expression, a refusal or a slice out of range) and the offset agree with the function of the text that the theorems below are about; terminates on every text |
| ExprParsing.ExprParser.ParsePrimary | crates/core/src/profile.rs:3509-3545 | literals, parentheses, calls and paths: the result (an expression, a refusal or a slice out of range) and the offset agree with the function of the text that the theorems below are about; terminates on every text |
| ExprParsing.ExprParser.ParseLiteral | crates/core/src/profile.rs:3518-3535 | the literals, told apart by how they begin, words taken as prefixes: the result (a value, a refusal, or a slice out of range inside a character of several bytes) and the offset agree with the function of the text that the theorems below are about; terminates on every text |
| ExprParsing.ExprParser.ParseString | crates/core/src/profile.rs:3547-3567 | quoted strings: the result (a value, a refusal, or a slice out of range inside a character of several bytes) and the offset agree with the function of the text that the theorems below are about; terminates on every text |
| ExprParsing.ExprParser.ParseRegexLiteral | crates/core/src/profile.rs:3569-3589 | regex literals: the result (a value, a refusal, or a slice out of range inside a character of several bytes) and the offset agree with the function of the text that the theorems below are about; terminates on every text |
| ExprParsing.ExprParser.ParseNumber | crates/core/src/profile.rs:3591-3635 | numbers with exponents: the result and the offset agree with the function of the text that the theorems below are about; terminates on every text |
| ExprParsing.ExprParser.ParseProperty | crates/core/src/profile.rs:3637-3675 | property paths; a member before a parenthesis is put back: the result and the offset agree with the function of the text that the theorems below are about; terminates on every text |
| ExprParsing.ExprParser.ParseIdentifier | crates/core/src/profile.rs:3677-3690 | identifiers: the result and the offset agree with the function of the text that the theorems below are about; terminates on every text |
| ExprParsing.ExprParser.ParseMethodCall | crates/core/src/profile.rs:3692-3729 | method calls and the lambda filters: the result (an expression, a refusal or a slice out of range) and the offset agree with the function of the text that the theorems below are about; terminates on every text |
| ExprParsing.ExprParser.ParseCallArgs | crates/core/src/profile.rs:3731-3747 | argument lists: the result (an expression, a refusal or a slice out of range) and the offset agree with the function of the text that the theorems below are about; terminates on every text |
| ExprParsing.ExprParser.TakeCallContent | crates/core/src/profile.rs:3749-3803 | the raw text up to the closing parenthesis, strings and regexes stepped over: the result (a value, a refusal, or a slice out of range inside a character of several bytes) and the offset agree with the function of the text that the theorems below are about; terminates on every text |
| RuleRoundTrip.OperatorReads | crates/core/src/profile.rs:3350-3475 | in front of an operand each operator is found at its own level and not mistaken for a tighter one |
| RuleRoundTrip.BinaryReads | crates/core/src/profile.rs:3350-3475 | a tree of a level is read whole, then further operands of that level; or it holds a character of several bytes, and a slice is out of range |
| RuleRoundTrip.ConditionalReads | crates/core/src/profile.rs:3332-3675 | a whole expression is read up to what cannot continue it, under the same condition |
| RuleRoundTrip.ParseUndoesPrint | crates/core/src/profile.rs:3282-3806 | any properly parenthesised text, with any white space and extra parentheses, method calls and lambdas included, is parsed to the tree it was written from when all its characters are ASCII, and otherwise panics; only strings, regexes and lambdas can hold others |
| RuleTables.IdentifierCharByTable | crates/core/src/profile.rs:3677-3690 | names consist of ASCII letters, digits and the underscore |
| RuleTables.SpaceByTable | crates/core/src/profile.rs:3311-3319 | between tokens stand space, tab, line feed, form feed and carriage return |
| RuleTables.TrimIs | crates/core/src/profile.rs:3806-3830 | trimming takes the white space of the Unicode Character Database off both ends and nothing else |
| RuleTables.MantissaByTable | crates/core/src/profile.rs:3591-3635 | a number has a digit and at most one dot |
| RuleTables.PropertyByTable | crates/core/src/profile.rs:4053-4080 | five property names are renamed, and names of more than 128 bytes refused |
| RuleTables.FunctionByTable | crates/core/src/profile.rs:4058-4069 | what can be called by its name alone |
| RuleTables.MethodByTable | crates/core/src/profile.rs:3884-3942 | what can be called behind a receiver, with how many arguments |
| RuleTables.OperatorByTable | crates/core/src/profile.rs:3350-3489 | each operator is spelled and binds as the table of levels says |
| RulePrinting.WrittenIsProper | crates/core/src/profile.rs:3332-3545 | writing an expression, lambda filters included, with only the parentheses precedence requires gives a proper text that means it |
| RuleLambdas.WrittenLambdaReads | crates/core/src/profile.rs:3806-4030 | a written lambda (equalities joined by `||`, inequalities by `&&`, a regex test or its negation), whose values do not contain the joint and can stand in some quotes, is read as the lambda it was, and ends at the parenthesis behind it exactly when it is ASCII; otherwise a slice is out of range on the way there |
| RulePrinting.EveryWritableExpressionRoundTrips | crates/core/src/profile.rs:3282-3806 | so parsing the minimal text of any writable expression returns the expression exactly when all its strings, patterns and lambda values are ASCII, and panics otherwise |
| RulePrinting.WordPrefixIsCut | crates/core/src/profile.rs:3524-3535 | a name beginning with `true`, `false` or `null` is cut there, and the text refused |
| RulePrinting.NameIsPropertyIff | crates/core/src/profile.rs:3524-3545 | a plain name is read as a property exactly when it begins with none of the words |
| RulePanics.LambdaPanicsIff | crates/core/src/profile.rs:3987-4030 | reading a lambda slices out of range exactly when, after a parameter and no regex, the splitting at `||` or `&&` reaches a part that compares the parameter with a lone quotation mark |
| RulePanics.FilterPanics | crates/core/src/profile.rs:3707-3729 | a filter by such a lambda panics behind any receiver and in front of anything |
| RulePanics.QuotedBarsPanic | crates/core/src/profile.rs:3987-4030 | one such text: the bars stand inside a quoted string, and it is split at them all the same |
| RulePanics.StringPanicsIff | crates/core/src/profile.rs:3547-3567 | reading a string slices out of range exactly when a character beyond ASCII stands before its closing quote, or before the end of the text when there is none |
| RulePanics.RegexPanicsIff | crates/core/src/profile.rs:3569-3589 | the same for a regex and the next slash that no backslash escapes |
| RulePanics.ContentPanicsIff | crates/core/src/profile.rs:3749-3803 | the same for the content of a lambda call and the parenthesis that closes it |
| RulePanics.CutContentPanics | crates/core/src/profile.rs:3707-3729 | a filter with such content panics behind any receiver, whatever the content says |
| RulePanics.AccentPanics | crates/core/src/profile.rs:3547-3567 | one such text: a single accented letter in quotes |
| RuleEvaluation.RuleEvaluator.Evaluate | crates/core/src/profile.rs:1815-1825 | each evaluation starts a new budget, so the outcome depends on the rule alone: answer and instruction counter are those of the budgeted evaluation below |
| RuleEvaluation.RuleEvaluator.Eval | crates/core/src/profile.rs:1331-1386 | both budget checks, then the node: answer and instruction counter are those of the budgeted evaluation below |
| RuleEvaluation.RuleEvaluator.EvalConditional | crates/core/src/profile.rs:1369-1379 | the chosen branch only: answer and instruction counter are those of the budgeted evaluation below |
| RuleEvaluation.RuleEvaluator.EvalBinary | crates/core/src/profile.rs:1388-1465 | both operands, `&&` and `||` short-circuited: answer and instruction counter are those of the budgeted evaluation below |
| RuleEvaluation.RuleEvaluator.EvalCall | crates/core/src/profile.rs:1467-1502 | the built-in calls: answer and instruction counter are those of the budgeted evaluation below |
| RuleEvaluation.RuleEvaluator.EvalBooleanFold | crates/core/src/profile.rs:1530-1553 | `all` and `exists` stop at the deciding argument: answer and instruction counter are those of the budgeted evaluation below |
| RuleEvaluation.RuleEvaluator.EvalCollection | crates/core/src/profile.rs:1579-1636 | filters and `findIndex`: answer and instruction counter are those of the budgeted evaluation below |
| RuleEvaluation.RuleEvaluator.EvalTwoArgs | crates/core/src/profile.rs:1650-1671 | two arguments, neither more nor less: answer and instruction counter are those of the budgeted evaluation below |
| RuleEvaluation.RuleEvaluator.EvalSingleArg | crates/core/src/profile.rs:1704-1717 | one argument: answer and instruction counter are those of the budgeted evaluation below |
| RuleEvaluation.RuleEvaluator.FilterInto | crates/core/src/profile.rs:1940-1975 | the filter loop keeps exactly what the filter keeps, in order |
| RuleEvaluation.SplitInto | crates/core/src/profile.rs:1915-1938 | the split loop under its cap |
| RuleMeaning.EvaluationMeansIff | crates/core/src/profile.rs:1331-1688 | under the budget a rule passes when its expression means true, fails when it means false and reports the fault otherwise, exactly when at most 512 nodes are visited and none below min(32, max_object_depth); the meaning is told clause by clause of the expression (each operator, `all`, `exists`, the conditional, each built-in), not by the evaluator's steps |
| RuleMeaning.MeaningIsSense | crates/core/src/profile.rs:1331-1553 | evaluating step by step without a budget comes to that meaning |
| RuleMeaning.NumbersMean | crates/core/src/profile.rs:1416-1462 | comparisons and arithmetic on numbers; a divisor within 2^-52 of zero is refused, and a remainder is what is left when the divisor is taken as often as it goes towards zero |
| RuleMeaning.IntegralIs | crates/core/src/profile.rs:1841-1852 | a number within 32 bits is taken for the integer next to it towards zero, at most 2^-52 away |
| RuleMeaning.BitAndIsBitwise | crates/core/src/profile.rs:1423-1427 | every bit of `a & b` in two's complement, the sign included, is the product of the bits |
| RuleMeaning.FindTextIsPlace | crates/core/src/profile.rs:1903-2006 | a search finds the first place where the needle occurs, and no place exactly when it occurs nowhere |
| RuleMeaning.SplitMeans | crates/core/src/profile.rs:1915-1938 | splitting gives the parts between separators taken from the left, or reports whichever cap is passed first |
| RuleMeaning.FilterMeans | crates/core/src/profile.rs:1940-1975 | a filter keeps the items that pass, in order, and fails at the first that has no answer |
| RuleMeaning.FindIndexIsFirst | crates/core/src/profile.rs:2008-2028 | the position of the first item that is one of the strings, or -1 |
| Evaluation.RunRefinesMeaningIff | crates/core/src/profile.rs:1331-1553 | the budgeted evaluator answers as the unbounded short-circuiting meaning exactly when at most 512 nodes are visited and none below min(32, max_object_depth); otherwise, and only then, it reports the budget |
| Evaluation.VisitsAtMostNodes | crates/core/src/profile.rs:1331-1553 | short-circuiting never visits more nodes than there are |
| Evaluation.ReachAtMostHeight | crates/core/src/profile.rs:1331-1553 | nor goes deeper than the expression |
| Evaluation.SmallRulesStayWithinBudget | crates/core/src/profile.rs:1337-1351 | a rule of at most 512 nodes and of admitted height never exceeds the budget |
| Evaluation.FiltersPartition | crates/core/src/profile.rs:1940-1975 | a filter, by equality or by a regex, and its negation fail alike, exactly where an item is no string or has no answer, and otherwise share out the items of a list between them, nothing lost or doubled |
| Evaluation.JoinUndoesSplit | crates/core/src/profile.rs:1915-1938 | the parts of a split string, joined again, are the string |
| Evaluation.CutsAtCharactersIff | crates/core/src/profile.rs:1977-1988 | a string can be sliced at a byte exactly when a character begins there or the string ends there; elsewhere the slice is empty |
| Evaluation.SliceAtIndexOf | crates/core/src/profile.rs:1977-2006 | the slice at the byte that `indexOf` returns begins with the needle, and its size and the index add up to the size of the whole |
| StructureWalk.CollectKids | crates/core/src/accessibility.rs:579-663 | from the last kid backwards: content to the node, children onto the stack, first child on top |
| StructureWalk.ContentInOrderIff | crates/core/src/accessibility.rs:593-597 | the content items of a node are those of the document in reverse, so they are in document order exactly when they read the same both ways |
| StructureWalk.AccessibilityGraph.AddNode | crates/core/src/accessibility.rs:506-573 | adds a node and tells its parent: c is a child of p exactly when p is the parent of c |
| StructureWalk.AccessibilityGraph.Step | crates/core/src/accessibility.rs:457-576 | one round: the node of an item and what is below it onto the stack |
| StructureWalk.AccessibilityGraph.Traverse | crates/core/src/accessibility.rs:441-577 | for every cyclic or shared object graph the node list is a prefix of the recursive depth-first preorder, the whole of it when not truncated, and truncated exactly when the walk needs more nodes or depth than the caps |
| StructureReach.NodesAreTheReachable | crates/core/src/accessibility.rs:441-663 | what that walk finds, told from the dictionaries alone: there are values, one a node, which are exactly the structure elements that can be reached from the root through `K` (arrays, references and inline dictionaries); each node has its element's role, its own `Pg` or else its parent's page, the marked content and object references among its kids in reverse, and its parent's element lists it; no indirect object has two nodes |
| StructureReach.KeysAreTheReachable | crates/core/src/accessibility.rs:441-663 | the keys of the nodes are exactly those of the indirect elements that can be reached |
| StructureReach.KidIsMarked | crates/core/src/accessibility.rs:603-661 | a kid is a number, a marked-content reference, an object reference, a child element with its own page or the inherited one, or nothing, by its own dictionary |
| StructureTree.ExpandDecreases | crates/core/src/accessibility.rs:457-576 | each round uses up an unvisited key, or leaves the keys and shrinks the inline size on the stack |
| StructureTree.VisitAllSplits | crates/core/src/accessibility.rs:441-577 | walking two lists one after the other is walking their concatenation, visited set threaded through |
| StructureTree.WalkWithStack | crates/core/src/accessibility.rs:457-576 | putting what is below an item in front of what is left is the recursive walk |
| StructureTree.WalkKeepsForest | crates/core/src/accessibility.rs:506-573 | every walk leaves a forest: parents are earlier and one level up, no object key occurs twice |
| StructureWalk.NormalizeRole | crates/core/src/accessibility.rs:1420-1433 | a role is normalised to the end of its chain exactly when the chain ends within 31 steps; longer chains are reported circular like cycles, with the role the walk had come to |
| PageTree.CollectPages | crates/core/src/accessibility.rs:1289-1338 | the explicit-stack walk of the page tree is the recursive one, errors included |
| PageTree.VisitPagesSplits | crates/core/src/accessibility.rs:1300-1336 | visiting two lists of keys one after the other is visiting their concatenation |
| PageTree.PagesAreTheReachable | crates/core/src/accessibility.rs:1289-1338 | in any graph the pages are exactly the page objects reachable through kids of nodes, each once |
| PageTree.WalkFitsIff | crates/core/src/accessibility.rs:1304-1311 | the object cap is reported exactly when the root reaches more keys than the cap |
| PageOrder.PagesInOrder | crates/core/src/accessibility.rs:1289-1338 | the pages of a page tree as section 7.7.3 of ISO 32000-1 draws it come out from left to right |
| PageOrder.KidsAreListed | crates/core/src/accessibility.rs:1330-1336 | the walk goes on to exactly the references in the `Kids` array of a node that is no page |
| ContentTokens.ContentTokenizer.SkipWsAndComments | crates/core/src/content.rs:1136-1151 | white space and comments: result and cursor agree with the function of the bytes that the theorems below are about |
| ContentTokens.ContentTokenizer.ConsumeUntilDelimiter | crates/core/src/content.rs:1153-1160 | a run of regular bytes: result and cursor agree with the function of the bytes that the theorems below are about |
| ContentTokens.ContentTokenizer.ReadName | crates/core/src/content.rs:1196-1222 | escapes decoded, a stray number sign kept: result and cursor agree with the function of the bytes that the theorems below are about |
| ContentTokens.ContentTokenizer.ReadWord | crates/core/src/content.rs:917-942 | keywords, integers, numbers and operator names: result and cursor agree with the function of the bytes that the theorems below are about |
| ContentTokens.ContentTokenizer.ConsumeLiteralString | crates/core/src/content.rs:1020-1047 | the end of a literal string: result and cursor agree with the function of the bytes that the theorems below are about |
| ContentTokens.ContentTokenizer.ConsumeHexString | crates/core/src/content.rs:1049-1062 | the end of a hexadecimal string: result and cursor agree with the function of the bytes that the theorems below are about |
| ContentTokens.ContentTokenizer.ConsumeCompositeRange | crates/core/src/content.rs:1089-1134 | the end of an array or dictionary under the depth cap: result and cursor agree with the function of the bytes that the theorems below are about |
| ContentTokens.ContentTokenizer.NextToken | crates/core/src/content.rs:884-915 | one token: result and cursor agree with the function of the bytes that the theorems below are about |
| ContentTokens.ContentTokenizer.ReadImageEntries | crates/core/src/content.rs:949-968 | keys and values up to `ID`: result and cursor agree with the function of the bytes that the theorems below are about |
| ContentTokens.ContentTokenizer.ConsumeInlineImageData | crates/core/src/content.rs:983-1018 | the data up to an `EI` that stands alone: result and cursor agree with the function of the bytes that the theorems below are about |
| ContentTokens.ContentTokenizer.ParseInlineImage | crates/core/src/content.rs:944-981 | a whole inline image: result and cursor agree with the function of the bytes that the theorems below are about |
| ContentRoundTrip.InsidePassed | crates/core/src/content.rs:1089-1134 | the end of a composite is looked for behind everything nested in it, or it is refused, according to its nesting alone |
| ContentRoundTrip.TokenReads | crates/core/src/content.rs:884-942 | any written token is read as what it says with the cursor behind it exactly when it is within the limits |
| ContentRoundTrip.WordMeans | crates/core/src/content.rs:917-942 | a word is a keyword, an integer of 64 bits by its places, any other number or an operator, in this order |
| ContentRoundTrip.DataReadIff | crates/core/src/content.rs:983-1018 | inline image data are read to their end exactly when no `EI` stands alone in them and they are within the cap |
| ContentRoundTrip.ImageReadIff | crates/core/src/content.rs:944-1018 | and so is the whole image, with its entries |
| ContentRoundTrip.ContentUndoesWriting | crates/core/src/content.rs:424-493 | any written stream of operations, inline images included, within the caps, is read as exactly its operations with their operands |
| ContentRoundTrip.NamesAgree | crates/core/src/content.rs:1196-1222 | a name the object parser reads is the same name here and ends at the same byte |
| ContentRoundTrip.OperatorNameErrorIff | crates/core/src/content.rs:884-942 | the error of an operator name over its cap is reported exactly for a delimiter that opens nothing, and for a word that is no keyword and no number and is over the cap |
| ContentRoundTrip.CommentReadAsContent | crates/core/src/content.rs:1089-1134 | a comment inside an array or a dictionary is passed over when the scan notices none of its bytes, and otherwise read as content from the first byte noticed: a closing bracket in it ends the array |
| ContentSummary.Summary.PushOperand | crates/core/src/content.rs:495-523 | the operand is buffered, or the buffer emptied at a cap; an error exactly when the size overflows |
| ContentSummary.Summary.MarkActiveSpans | crates/core/src/content.rs:719-732 | sets the flag of exactly the spans on the stack |
| ContentSummary.Summary.BeginSpan | crates/core/src/content.rs:586-614 | a new open span with its tag and depth |
| ContentSummary.Summary.EndSpan | crates/core/src/content.rs:615-623 | closes the top span; an unmatched end changes nothing |
| ContentSummary.Summary.ClassifyOperator | crates/core/src/content.rs:529-717 | one operator is one more step, with its fact, resource, graphics depth, warning and marked content; or its error |
| ContentSummary.Summary.Summarize | crates/core/src/content.rs:424-493 | over the whole stream: facts equal operators in number and say what each operator says, every span's flags, depth and tag are right, up to the first error or the operator cap, which is reported exactly then |
| ContentTables.FactByTable | crates/core/src/content.rs:529-716 | what each operator of table 51 of ISO 32000-1 leaves behind: the size of shown text, the tag (the first name among the operands, or `Unknown`) of marked content, colours, XObjects, images and the plain families |
| ContentTables.UnknownByTable | crates/core/src/content.rs:529-770 | exactly the operators of none of these kinds are recorded as unknown, with those of Type 3 glyphs among them and `Do` without a name |
| ContentTables.FamilyByTable | crates/core/src/content.rs:560-700 | which resource an operator uses |
| ContentTables.ImageByTable | crates/core/src/content.rs:944-981 | an inline image is told from its entries by the names of table 93, the short one first; both names of its filter count |
| ContentTables.TotalIs | crates/core/src/content.rs:405-414 | operands are as long as their bytes or digits |
| ContentTables.DecimalLengthIs | crates/core/src/content.rs:405-414 | a number has as many digits as places, and a sign when negative |
| ContentTables.BalancedDepth | crates/core/src/content.rs:624-641 | in a balanced stream the depth of the graphics state is the number of states saved and not restored |
| MarkedContent.BeginsAreAll | crates/core/src/content.rs:586-614 | the spans are exactly the opening operators |
| MarkedContent.StackKept | crates/core/src/content.rs:529-717 | other operators leave the stack holding exactly the open spans |
| MarkedContent.StackGrows | crates/core/src/content.rs:586-614 | an opening operator adds its span to them |
| MarkedContent.StackShrinks | crates/core/src/content.rs:615-623 | an end closes the innermost open span and no other |
| MarkedContent.WithinNext | crates/core/src/content.rs:719-732 | a span has text (an image) when it had, or when the operator shows it while the span is open |
| MarkedState.DepthsFitIff | crates/core/src/content.rs:594-599 | in every state the summary reaches, every depth is the number of spans open exactly when no more than 32 bits count were ever open |
| MarkedState.ShowMarked | crates/core/src/content.rs:719-732 | flagging the spans on the stack keeps every flag equal to what the run of operators says |
| MarkedState.BeginMarked | crates/core/src/content.rs:586-614 | so does opening a span |
| MarkedState.EndMarked | crates/core/src/content.rs:615-623 | and closing one, matched or not |
| Encryption.ObjectStore.DecryptObjects | crates/core/src/parser/encryption.rs:772-794 | decrypts every object but the encryption dictionary under its own key; succeeds exactly when each can be decrypted |
| Encryption.TypeKept | crates/core/src/parser/encryption.rs:849-853 | an encrypted dictionary is Metadata exactly when it was before |
| Encryption.BodyRestored | crates/core/src/parser/encryption.rs:842-879 | a stream body whose cipher key has a length its method takes comes back, or stays clear when it should, and loses its Crypt filters with their parameters |
| Encryption.ObjectRestoredIff | crates/core/src/parser/encryption.rs:796-879 | an object encrypted leaf by leaf under its own key is decrypted to itself exactly when its strings and bodies fit the limits and the file key, wherever it is used, is long enough for AESV2 (11 bytes) or as long as AESV3 wants (32) |
| Encryption.ObjectKeyFitsIff | crates/core/src/parser/encryption.rs:881-945 | the key of an object fits its cipher exactly when the file key has that length; revision 4 allows shorter ones |
| Encryption.ShortKeyOpensNothing | crates/core/src/parser/encryption.rs:881-945 | under AESV2 and a file key below 11 bytes, the 5 bytes of the default length included, no document with an encrypted string, at any depth of any object, is opened |
| Encryption.DocumentRestoredIff | crates/core/src/parser/encryption.rs:772-910 | decrypting an encrypted document succeeds exactly when every object meets that condition, and then restores every string and raw stream body and leaves all other nodes and the tree shape as they were |
| Encryption.KeyedAlikeIff | crates/core/src/parser/encryption.rs:881-897 | two objects are keyed alike exactly when their numbers agree in the low three bytes and their generations are the same; under AESV3 all are |
| KeyLaws.ObjectKeyIsStandard | crates/core/src/parser/encryption.rs:881-897 | the key of an object is Algorithm 1 of section 7.6.2 of ISO 32000-1, byte for byte, `sAlT` for AESV2 only, and the file key itself for AESV3 |
| FilterTables.WithoutCryptAt | crates/core/src/parser.rs:771-783 | a decrypted stream keeps exactly its filters that are not `Crypt`, in order, each with the parameters at its position |
| FilterTables.StaysClearIff | crates/core/src/parser/encryption.rs:842-855 | a stream stays clear under the Identity method, and when it is Metadata and the document says so |
| PasswordKeys.Revision6HashLoop | crates/core/src/parser/encryption.rs:688-734 | for any hash and cipher of the right output lengths the loop never fails, runs 64 to 288 rounds and stops after the first round that meets its own test |
| PasswordKeys.LastRoundStops | crates/core/src/parser/encryption.rs:728-731 | the last round always meets the test, so the iteration bound is never an error |
| PasswordKeys.SelectorIsRemainder | crates/core/src/parser/encryption.rs:714-719 | the byte sum modulo 3 is the 128-bit big-endian number modulo 3 |
| PasswordKeys.ChooseHash | crates/core/src/parser/encryption.rs:714-724 | choosing by the byte sum, as the code does, is choosing by the 128-bit number, as the standard does |
| PasswordKeys.PaddingMeetsStandardIff | crates/core/src/parser/encryption.rs:1134-1141 | password padding is Algorithm 2, step a, of section 7.6.3.3 of ISO 32000-1 exactly for empty passwords and those of 32 bytes or more |
| KeyLaws.KeysAreStandard | crates/core/src/parser/encryption.rs:504-560 | the file key is made from the padded password, the owner entry, the permissions, the identifier and the metadata mark of revision 4, the owner's key from the padded password alone; from revision 3 on both are hashed fifty times more, their first bytes only |
| KeyLaws.RoundKeyIs | crates/core/src/parser/encryption.rs:1143-1145 | the key of a round differs from the key in exactly the bits of the round number |
| TableLaws.PaddingString | crates/core/src/parser/encryption.rs:1134-1141 | the padding string is that of Algorithm 2 |
| PasswordKeys.RoundsBackUndoRounds | crates/core/src/parser/encryption.rs:519-537 | the twenty rounds run backwards undo the twenty rounds |
| PasswordKeys.DecryptOwnerKey | crates/core/src/parser/encryption.rs:519-537 | one round for revision 2, twenty backwards from revision 3 on |
| PasswordKeys.AuthenticateUserPassword | crates/core/src/parser/encryption.rs:478-502 | the user password opens exactly when its value matches the user entry, first 16 bytes only from revision 3 on |
| PasswordKeys.Authenticate | crates/core/src/parser/encryption.rs:456-502 | revisions 2 to 4: the owner's password first, then the user's |
| PasswordKeys.OwnerPasswordOpens | crates/core/src/parser/encryption.rs:469-560 | a document made from two passwords grants the owner's password the file key of the user's |
| PasswordKeys.UserPasswordOpens | crates/core/src/parser/encryption.rs:478-584 | it grants the user's password a key, and the file key unless that password also opens as the owner's |
| Revision6Keys.HashPassword | crates/core/src/parser/encryption.rs:668-686 | the hash of revision 5 is one SHA-256, that of revision 6 the loop above |
| Revision6Keys.ValidatePerms | crates/core/src/parser/encryption.rs:736-761 | the permission block is accepted exactly when it decrypts to the permissions, the metadata flag and the marker |
| Revision6Keys.AuthenticateEntry | crates/core/src/parser/encryption.rs:596-660 | one entry: validation salt, key salt, unwrapping and the permission check |
| Revision6Keys.Authenticate6 | crates/core/src/parser/encryption.rs:586-594 | the owner's entry first, with the user's entry as context, then the user's |
| Revision6Keys.OwnerPasswordOpens6Iff | crates/core/src/parser/encryption.rs:586-660 | a document made from two passwords grants the owner's the file key exactly when its sealed permissions are the stated ones; otherwise it is reported broken |
| Revision6Keys.UserPasswordOpens6Iff | crates/core/src/parser/encryption.rs:586-660 | so does the user's, unless it is also the owner's |
| Revision6Keys.LongPasswordsAreCut | crates/core/src/parser/encryption.rs:662-666 | only the first 127 bytes of a password matter |

## Left out

- Inflate, MD5, SHA-2, AES and RC4: any functions with the stated laws; `Deflated`, `Inverts`, `StreamCipher`, `RightLengths` and `Undoes` say which.
- Regular expressions, `object.property`, model links and `hasParseFact`: functions of the environment, so nothing is said about their results.
- `f64`: numbers in COS objects are kept as their digits, with the bound from which they round to infinity; rule arithmetic is over `real`, without rounding or NaN; which words of a content stream are numbers is any test.
- UTF-8 and lossy conversion: names and operators are compared as bytes, so two names that differ only in invalid UTF-8 stay different; rule texts are sequences of characters; the byte offsets of the original show in the slices out of range, the sizes and the string slices, which are modelled.
- Error messages and locations: errors are distinguished by kind only; object offsets are kept, operator locations are not.
- The file header, object streams, cross-reference streams and the expansion of their objects, whose offsets depend on the storage mode.
- A caller's own decoder registry: the default one is modelled.
- RulePrinting.EveryWritableExpressionRoundTrips: a string with both kinds of quotation marks, which only a regex literal can spell, is not writable, and neither is a lambda value that contains the joint of its list.
- Predictors.UnTiffUndoesDifference: is about byte-wise differencing; the standard's, of components, is in `TiffSamples`.
- Predictors.UnfilterRows: the buffer is an array; the encoded rows are read from a sequence.
- Encryption.ObjectStore.DecryptObjects: the store is updated object by object; inside one object the new value is built, not written in place, which is the same because values are not shared.
- PasswordKeys.Authenticate: revisions 2 to 4; revisions 5 and 6 are `Revision6Keys.Authenticate6`.
- The encryption dictionary and its crypt filters: their fields are given.
- StructureWalk.AccessibilityGraph.Traverse: keeps role, key, parent, children, page, depth and content items; the attributes of a node, its offset and its ordinal are independent reads and left out, and so are content associations, the parent tree and the ID tree. A depth cap of 2^32 - 1 can end in an arithmetic error.
- ContentSummary.Summary.Summarize: the `MCID` and properties of a span are left out, and so are operator locations; the facts of the plain operator families are one kind with the operator's name.
- ContentRoundTrip.ContentUndoesWriting: is about streams within the caps; what the caps do to any stream is stated by `ContentSummary.Summary.Summarize`.
- FileRoundTrip.FileParses: is about indirect objects up to an end-of-file marker; `XrefRoundTrip.WholeFileParses` adds the table, the trailer and `startxref`, for one table in front of the marker.
- Profiles' XML, reports, metadata repair, the command line, spill-file handling and the `validation.rs` and `xmp.rs` modules.
