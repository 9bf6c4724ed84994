/** Which filters and parameters a stream dictionary names, and the chain of decoders over them. */
module FilterChain {
  import opened Bytes
  import opened Cos
  import opened Predictors
  import opened TiffSamples
  import AsciiHex
  import Ascii85
  import RunLength
  import Lzw
  import Bits
  import EncodedText

  // ---------------------------------------------------------------------------------------------
  // Filters and decode parameters from the dictionary
  // ---------------------------------------------------------------------------------------------

  function ParamsOf(d: Dictionary): DecodeParams {
    var predictor := IntegerOf(Get(d, "Predictor"));
    var colors := IntegerOf(Get(d, "Colors"));
    var bits := IntegerOf(Get(d, "BitsPerComponent"));
    var columns := IntegerOf(Get(d, "Columns"));
    var early := IntegerOf(Get(d, "EarlyChange"));
    var name := Get(d, "Name");
    DecodeParams(
      if predictor.Some? && 0 <= predictor.value < 0x1_0000 then predictor.value else 1,
      if colors.Some? && 0 <= colors.value < 0x1_0000 then colors.value else 1,
      if bits.Some? && 0 <= bits.value < 0x1_0000 then bits.value else 8,
      if columns.Some? && 0 <= columns.value < 0x1_0000_0000 then columns.value else 1,
      if early.Some? && 0 <= early.value < 256 then early.value else 1,
      if name.Some? && name.value.Name? then Some(name.value.bytes) else None)
  }

  predicate NamesIdentity(params: CosObject) {
    params.Dict? && IsName(Get(params.entries, "Name"), "Identity")
  }

  predicate IsIdentityCrypt(d: Dictionary, index: nat) {
    var filter := Get(d, "Filter");
    var filterIsCrypt :=
      filter.Some? &&
      match filter.value
      case Name(bytes) => Matches(bytes, "Crypt")
      case Array(items) => index < |items| && IsName(Some(items[index]), "Crypt")
      case _ => false;
    var params := Get(d, "DecodeParms");
    filterIsCrypt && params.Some? &&
    match params.value
    case Dict(_) => NamesIdentity(params.value)
    case Array(items) => index < |items| && NamesIdentity(items[index])
    case _ => false
  }

  /** The filters kept from position `index` of a filter array on. */
  function KeptFilters(d: Dictionary, items: seq<CosObject>, index: nat): seq<seq<byte>>
    requires index <= |items|
    decreases |items| - index
  {
    if index == |items| then []
    else
      (if items[index].Name? && !IsIdentityCrypt(d, index) then [items[index].bytes] else [])
      + KeptFilters(d, items, index + 1)
  }

  function StreamFilters(d: Dictionary): seq<seq<byte>> {
    match Get(d, "Filter")
    case Some(Name(bytes)) => if IsIdentityCrypt(d, 0) then [] else [bytes]
    case Some(Array(items)) => KeptFilters(d, items, 0)
    case _ => []
  }

  function ItemParams(item: CosObject): DecodeParams {
    if item.Dict? then ParamsOf(item.entries) else DEFAULT_PARAMS
  }

  function StreamDecodeParams(d: Dictionary, filterCount: nat): seq<DecodeParams> {
    match Get(d, "DecodeParms")
    case Some(Dict(entries)) => [ParamsOf(entries)]
    case Some(Array(items)) =>
      var n := if |items| < filterCount then |items| else filterCount;
      seq(n, i requires 0 <= i < n => ItemParams(items[i]))
    case _ => seq(filterCount, _ => DEFAULT_PARAMS)
  }

  /** What the chain hands to filter `j`. */
  function ParamsAt(params: seq<DecodeParams>, j: nat): DecodeParams {
    if j < |params| then params[j] else DEFAULT_PARAMS
  }

  // ---------------------------------------------------------------------------------------------
  // Dropped Crypt filters against the parameter array
  // ---------------------------------------------------------------------------------------------

  /** Filters and parameters as parallel arrays, where only Crypt filters name a crypt filter. */
  ghost predicate Parallel(d: Dictionary, filters: seq<CosObject>, params: seq<CosObject>) {
    && Get(d, "Filter") == Some(Array(filters))
    && Get(d, "DecodeParms") == Some(Array(params))
    && (forall i | 0 <= i < |params| ::
          NamesIdentity(params[i]) ==> i < |filters| && IsName(Some(filters[i]), "Crypt"))
  }

  /** The positions of the entries that are not dropped, in order. */
  ghost predicate KeptPositions(positions: seq<nat>, dropped: seq<bool>) {
    && (forall i, k | 0 <= i < k < |positions| :: positions[i] < positions[k])
    && (forall j | 0 <= j < |positions| :: positions[j] < |dropped|)
    && (forall i | 0 <= i < |dropped| :: i in positions <==> !dropped[i])
  }

  ghost predicate DroppedOnlyAtEnd(dropped: seq<bool>) {
    forall i, k | 0 <= i < k < |dropped| :: dropped[i] ==> dropped[k]
  }

  lemma {:induction false} IncreasingFromIndex(positions: seq<nat>, j: nat)
    requires forall i, k | 0 <= i < k < |positions| :: positions[i] < positions[k]
    requires j < |positions|
    ensures positions[j] >= j
  {
    if j > 0 {
      IncreasingFromIndex(positions, j - 1);
    }
  }

  /** Before the first dropped entry nothing is shifted. */
  lemma {:induction false} KeptInPlace(positions: seq<nat>, dropped: seq<bool>, first: nat)
    requires KeptPositions(positions, dropped) && first <= |dropped|
    requires forall k | 0 <= k < first :: !dropped[k]
    ensures |positions| >= first && forall j | 0 <= j < first :: positions[j] == j
  {
    if first > 0 {
      var last := first - 1;
      KeptInPlace(positions, dropped, last);
      assert last in positions;
      var at :| 0 <= at < |positions| && positions[at] == last;
      IncreasingFromIndex(positions, last);
    }
  }

  /** Positions are unshifted exactly when what is dropped stands at the end; otherwise the first
      dropped entry is where the shift starts. */
  lemma UnshiftedIff(positions: seq<nat>, dropped: seq<bool>) returns (first: nat)
    requires KeptPositions(positions, dropped)
    ensures DroppedOnlyAtEnd(dropped) ==> forall j | 0 <= j < |positions| :: positions[j] == j
    ensures !DroppedOnlyAtEnd(dropped) ==>
              first < |positions| && first < |dropped| && dropped[first] && positions[first] != first
  {
    first := 0;
    while first < |dropped| && !dropped[first]
      invariant first <= |dropped|
      invariant forall k | 0 <= k < first :: !dropped[k]
    {
      first := first + 1;
    }
    KeptInPlace(positions, dropped, first);
    forall j | 0 <= j < |positions|
      ensures positions[j] >= j
    {
      IncreasingFromIndex(positions, j);
    }
    if DroppedOnlyAtEnd(dropped) {
      forall j | 0 <= j < |positions|
        ensures positions[j] == j
      {
        assert positions[j] in positions;
        assert positions[j] < first;
      }
    } else {
      var i, k :| 0 <= i < k < |dropped| && dropped[i] && !dropped[k];
      assert first <= i && k in positions;
      assert first !in positions;
    }
  }

  /** Left out of the chain: what is no name, and an Identity Crypt filter. */
  predicate Drops(d: Dictionary, filters: seq<CosObject>, i: nat)
    requires i < |filters|
  {
    !filters[i].Name? || IsIdentityCrypt(d, i)
  }

  ghost function Dropped(d: Dictionary, filters: seq<CosObject>): (r: seq<bool>)
    ensures |r| == |filters|
  {
    seq(|filters|, i requires 0 <= i < |filters| => Drops(d, filters, i))
  }

  /** The kept filters are the array's entries at the kept positions. */
  lemma {:induction false} KeptFiltersAt(d: Dictionary, items: seq<CosObject>, index: nat)
    returns (positions: seq<nat>)
    requires index <= |items|
    ensures forall j | 0 <= j < |positions| :: index <= positions[j] < |items| && items[positions[j]].Name?
    ensures forall i, k | 0 <= i < k < |positions| :: positions[i] < positions[k]
    ensures forall i | index <= i < |items| :: i in positions <==> !Drops(d, items, i)
    ensures |KeptFilters(d, items, index)| == |positions|
    ensures forall j | 0 <= j < |positions| :: KeptFilters(d, items, index)[j] == items[positions[j]].bytes
    decreases |items| - index
  {
    hide IsIdentityCrypt;
    if index == |items| {
      positions := [];
    } else {
      var rest := KeptFiltersAt(d, items, index + 1);
      positions := if Drops(d, items, index) then rest else [index] + rest;
    }
  }

  /** Every kept filter is decoded with the parameters written for it. */
  ghost predicate Aligned(d: Dictionary, positions: seq<nat>, params: seq<CosObject>) {
    var used := StreamDecodeParams(d, |positions|);
    forall j | 0 <= j < |positions| :: ParamsAt(used, j) == OwnParams(params, positions[j])
  }

  function OwnParams(params: seq<CosObject>, i: nat): DecodeParams {
    if i < |params| then ItemParams(params[i]) else DEFAULT_PARAMS
  }

  lemma OwnParamsNameIdentityIff(d: Dictionary, filters: seq<CosObject>, params: seq<CosObject>, i: nat)
    requires Parallel(d, filters, params) && i < |filters|
    ensures OwnParams(params, i).cryptFilterName == Some(Ascii("Identity")) <==> IsIdentityCrypt(d, i)
  {
    assert DEFAULT_PARAMS.cryptFilterName == None;
  }

  lemma ParamsUsed(d: Dictionary, filters: seq<CosObject>, params: seq<CosObject>, count: nat, j: nat)
    requires Parallel(d, filters, params) && j < count
    ensures ParamsAt(StreamDecodeParams(d, count), j) == OwnParams(params, j)
  {
  }

  /** What stands at the index of a dropped item is never what a later filter was given. An Identity Crypt
      filter always stands out, by the name in its parameters; an item that is no name may have none. */
  ghost predicate StandsOut(d: Dictionary, filters: seq<CosObject>, params: seq<CosObject>) {
    forall i, k | 0 <= i < k < |filters| && !filters[i].Name? && !Drops(d, filters, k) ::
      OwnParams(params, i) != OwnParams(params, k)
  }

  /** The parameter array is not thinned out together with the filters. Every filter gets its own parameters
      exactly when those at its index among the filters kept are the same: always when what is dropped stands
      behind all of them, and, where dropped items stand out, only then. */
  lemma AlignedIff(d: Dictionary, filters: seq<CosObject>, params: seq<CosObject>) returns (positions: seq<nat>)
    requires Parallel(d, filters, params)
    ensures KeptPositions(positions, Dropped(d, filters)) && |StreamFilters(d)| == |positions|
    ensures forall j | 0 <= j < |positions| ::
              filters[positions[j]].Name? && StreamFilters(d)[j] == filters[positions[j]].bytes
    ensures Aligned(d, positions, params) <==>
            forall j | 0 <= j < |positions| :: OwnParams(params, j) == OwnParams(params, positions[j])
    ensures DroppedOnlyAtEnd(Dropped(d, filters)) ==> Aligned(d, positions, params)
    ensures StandsOut(d, filters, params) ==>
              (Aligned(d, positions, params) <==> DroppedOnlyAtEnd(Dropped(d, filters)))
  {
    positions := KeptFiltersAt(d, filters, 0);
    assert StreamFilters(d) == KeptFilters(d, filters, 0);
    hide IsIdentityCrypt, StreamFilters, StreamDecodeParams, ParamsAt, OwnParams, KeptFilters;
    var dropped := Dropped(d, filters);
    var first := UnshiftedIff(positions, dropped);
    forall j | 0 <= j < |positions|
      ensures ParamsAt(StreamDecodeParams(d, |positions|), j) == OwnParams(params, j)
    {
      ParamsUsed(d, filters, params, |positions|, j);
    }
    if !DroppedOnlyAtEnd(dropped) {
      assert Drops(d, filters, first);
      OwnParamsNameIdentityIff(d, filters, params, first);
      OwnParamsNameIdentityIff(d, filters, params, positions[first]);
      assert positions[first] in positions;
      IncreasingFromIndex(positions, first);
    }
  }

  /** One item that is no name in front of a filter, and the filter is read with the default parameters whatever
      its own are. */
  lemma NullShiftsParams(d: Dictionary, name: seq<byte>, own: Dictionary)
    requires Get(d, "Filter") == Some(Array([Null, Name(name)]))
    requires Get(d, "DecodeParms") == Some(Array([Null, Dict(own)])) && !NamesIdentity(Dict(own))
    ensures StreamFilters(d) == [name] && StreamDecodeParams(d, 1) == [DEFAULT_PARAMS]
  {
    var items := [Null, Name(name)];
    var params := [Null, Dict(own)];
    assert KeptFilters(d, items, 2) == [];
    assert !IsIdentityCrypt(d, 1) by {
      assert params[1] == Dict(own);
    }
    assert KeptFilters(d, items, 1) == [name] + [];
    assert KeptFilters(d, items, 0) == [] + [name];
  }

  // ---------------------------------------------------------------------------------------------
  // The chain
  // ---------------------------------------------------------------------------------------------

  datatype Decoder = Flate | Hex | Base85 | Runs | LzwCodes | Crypt | MetadataOnly

  datatype DecoderOutput = DecoderOutput(bytes: seq<byte>, metadataMode: bool)

  datatype StreamFact =
    | FilterDecoded(filter: seq<byte>, inputBytes: nat, outputBytes: nat)
    | FilterMetadataMode(filter: seq<byte>, bytes: nat)

  datatype DecodedStream = DecodedStream(bytes: seq<byte>, facts: seq<StreamFact>)

  /** The default registry. */
  function DecoderNamed(name: seq<byte>): Option<Decoder> {
    if Matches(name, "FlateDecode") || Matches(name, "Fl") then Some(Flate)
    else if Matches(name, "ASCIIHexDecode") || Matches(name, "AHx") then Some(Hex)
    else if Matches(name, "ASCII85Decode") || Matches(name, "A85") then Some(Base85)
    else if Matches(name, "RunLengthDecode") || Matches(name, "RL") then Some(Runs)
    else if Matches(name, "LZWDecode") || Matches(name, "LZW") then Some(LzwCodes)
    else if Matches(name, "Crypt") then Some(Crypt)
    else if Matches(name, "DCTDecode") || Matches(name, "JPXDecode")
         || Matches(name, "JBIG2Decode") || Matches(name, "CCITTFaxDecode") then Some(MetadataOnly)
    else None
  }

  /** Inflating belongs to a library; `inflate` is any function of the bytes and the cap. */
  type Inflate = (seq<byte>, nat) -> Result<seq<byte>>

  function Plain(r: Result<seq<byte>>): Result<DecoderOutput> {
    if r.Ok? then Ok(DecoderOutput(r.value, false)) else Err(r.error)
  }

  function DecodeWith(
      decoder: Decoder, input: seq<byte>, params: DecodeParams, cap: nat, inflate: Inflate): Result<DecoderOutput>
  {
    match decoder
    case Flate =>
      var decoded :- inflate(input, cap);
      Plain(Unpredict(decoded, params, cap))
    case Hex => Plain(AsciiHex.Decode(input, cap))
    case Base85 => Plain(Ascii85.Decode(input, cap))
    case Runs => Plain(RunLength.Decode(input, cap))
    case LzwCodes =>
      var decoded :- Lzw.Decode(input, params.earlyChange, cap);
      Plain(Unpredict(decoded, params, cap))
    case Crypt =>
      if params.cryptFilterName.None? || Matches(params.cryptFilterName.value, "Identity") then
        Ok(DecoderOutput(input, false))
      else Err(UnsupportedFilter)
    case MetadataOnly => Ok(DecoderOutput(input, true))
  }

  method RunDecoder(decoder: Decoder, input: seq<byte>, params: DecodeParams, cap: nat, inflate: Inflate)
    returns (r: Result<DecoderOutput>)
    ensures r == DecodeWith(decoder, input, params, cap, inflate)
  {
    var bytes;
    match decoder {
      case Flate =>
        bytes := inflate(input, cap);
        if bytes.Ok? {
          bytes := ApplyPredictor(bytes.value, params, cap);
        }
      case Hex => bytes := AsciiHex.DecodeAsciiHex(input, cap);
      case Base85 => bytes := Ascii85.DecodeAscii85(input, cap);
      case Runs => bytes := RunLength.DecodeRunLength(input, cap);
      case LzwCodes =>
        bytes := Lzw.DecodeLzw(input, params.earlyChange, cap);
        if bytes.Ok? {
          bytes := ApplyPredictor(bytes.value, params, cap);
        }
      case Crypt =>
        if params.cryptFilterName.None? || Matches(params.cryptFilterName.value, "Identity") {
          bytes := Ok(input);
        } else {
          bytes := Err(UnsupportedFilter);
        }
      case MetadataOnly =>
        return Ok(DecoderOutput(input, true));
    }
    return Plain(bytes);
  }

  function FactOf(filter: seq<byte>, input: seq<byte>, output: DecoderOutput): StreamFact {
    if output.metadataMode then FilterMetadataMode(filter, |output.bytes|)
    else FilterDecoded(filter, |input|, |output.bytes|)
  }

  /** The filters from position `index` on. */
  function Chain(
      current: seq<byte>, filters: seq<seq<byte>>, params: seq<DecodeParams>, index: nat,
      facts: seq<StreamFact>, cap: nat, inflate: Inflate): Result<DecodedStream>
    requires index <= |filters|
    decreases |filters| - index
  {
    if index == |filters| then
      if |current| > cap then Err(LimitExceeded(MaxStreamDecodeBytes)) else Ok(DecodedStream(current, facts))
    else
      var decoder := DecoderNamed(filters[index]);
      if decoder.None? then Err(UnsupportedFilter)
      else
        var output :- DecodeWith(decoder.value, current, ParamsAt(params, index), cap, inflate);
        if |output.bytes| > cap then Err(LimitExceeded(MaxStreamDecodeBytes))
        else
          Chain(output.bytes, filters, params, index + 1, facts + [FactOf(filters[index], current, output)], cap, inflate)
  }

  method DecodedBytes(stream: StreamObject, cap: nat, inflate: Inflate) returns (r: Result<DecodedStream>)
    ensures stream.RawBytes().Err? ==> r == Err(stream.RawBytes().error)
    ensures stream.RawBytes().Ok? ==>
              r == Chain(stream.RawBytes().value, stream.filters, stream.decodeParams, 0, [], cap, inflate)
    ensures r.Ok? ==> |r.value.bytes| <= cap && |r.value.facts| == |stream.filters|
  {
    var raw := stream.RawBytes();
    if raw.Err? {
      return Err(raw.error);
    }
    var current := raw.value;
    var facts: seq<StreamFact> := [];
    var index := 0;
    while index < |stream.filters|
      invariant 0 <= index <= |stream.filters| && |facts| == index
      invariant Chain(current, stream.filters, stream.decodeParams, index, facts, cap, inflate)
             == Chain(raw.value, stream.filters, stream.decodeParams, 0, [], cap, inflate)
    {
      var filter := stream.filters[index];
      var params := ParamsAt(stream.decodeParams, index);
      var decoder := DecoderNamed(filter);
      if decoder.None? {
        return Err(UnsupportedFilter);
      }
      var output := RunDecoder(decoder.value, current, params, cap, inflate);
      if output.Err? {
        return Err(output.error);
      }
      if |output.value.bytes| > cap {
        return Err(LimitExceeded(MaxStreamDecodeBytes));
      }
      facts := facts + [FactOf(filter, current, output.value)];
      current := output.value.bytes;
      index := index + 1;
    }
    if |current| > cap {
      return Err(LimitExceeded(MaxStreamDecodeBytes));
    }
    return Ok(DecodedStream(current, facts));
  }

  // ---------------------------------------------------------------------------------------------
  // Encoders, and the chain that undoes them
  // ---------------------------------------------------------------------------------------------

  /** What an encoder chose when it wrote a stage. */
  datatype Encoding =
    | HexText(text: seq<byte>, trailing: seq<byte>)
    | Base85Text(text: seq<byte>, rest: seq<byte>)
    | RunPieces(pieces: seq<RunLength.Piece>, trailing: seq<byte>)
    | LzwStream(codes: seq<nat>, trailing: seq<byte>)
    | Deflated
    | PassThrough

  /** How the bytes handed to LZW or Flate relate to the data: not predicted at all, filtered rows of a PNG
      image, or rows of an image differenced sample by sample or byte by byte. */
  datatype Prediction =
    | Unpredicted
    | PngRows(image: seq<seq<byte>>, filters: seq<byte>)
    | SampleRows(image: seq<seq<byte>>)
    | ByteRows(image: seq<seq<byte>>)

  ghost predicate PredictedAs(prediction: Prediction, params: DecodeParams, data: seq<byte>, predicted: seq<byte>) {
    match prediction
    case Unpredicted => params.predictor == 1 && predicted == data
    case PngRows(image, filters) =>
      && 10 <= params.predictor <= 15
      && Geometry(params).Ok? && Geometry(params).value.1 > 0
      && Rows(image, Geometry(params).value.0) && |filters| == |image|
      && (forall row | 0 <= row < |filters| :: filters[row] <= 4)
      && data == Flatten(image)
      && predicted == Filter(image, filters, Zeros(Geometry(params).value.0), Geometry(params).value.1)
    case SampleRows(image) =>
      && params.predictor == 2 && Standard(params) && Rows(image, Geometry(params).value.0)
      && (forall row | row in image :: Restorable(row, params))
      && data == Flatten(image) && predicted == Flatten(TiffRows(image, params))
    case ByteRows(image) =>
      && params.predictor == 2 && Geometry(params).Ok? && Geometry(params).value.1 > 0
      && Rows(image, Geometry(params).value.0)
      && data == Flatten(image) && predicted == Difference(image, Geometry(params).value.1)
  }

  /** `encoded` is a valid encoding of `data` for this decoder and these parameters; what is deflated is what
      the library inflates. */
  ghost predicate EncodedAs(
      decoder: Decoder, params: DecodeParams, e: Encoding, p: Prediction, data: seq<byte>, encoded: seq<byte>, cap: nat,
      inflate: Inflate)
  {
    match (decoder, e)
    case (Hex, HexText(text, trailing)) =>
      && AsciiHex.Spells(EncodedText.DropWs(text), data)
      && (trailing == [] || trailing[0] == AsciiHex.EOD)
      && encoded == text + trailing
    case (Base85, Base85Text(text, rest)) =>
      && EncodedText.DropWs(text) == Ascii85.Encode(data)
      && Ascii85.EndOfData(rest)
      && encoded == text + rest
    case (Runs, RunPieces(pieces, trailing)) =>
      && RunLength.ValidPieces(pieces) && RunLength.Meaning(pieces) == data
      && (trailing == [] || trailing[0] == 128)
      && encoded == RunLength.Encode(pieces) + trailing
    case (LzwCodes, LzwStream(codes, trailing)) =>
      exists predicted ::
        && PredictedAs(p, params, data, predicted)
        && |predicted| <= cap
        && Lzw.Conforming(codes, Lzw.NewEncoder(), predicted)
        && (Lzw.EndsWithEod(codes) || trailing == [])
        && encoded
           == Bits.Pack(Lzw.Emit(codes, Lzw.NewEncoder(), predicted, params.earlyChange)) + trailing
    case (Flate, Deflated) =>
      exists predicted ::
        PredictedAs(p, params, data, predicted) && |predicted| <= cap && inflate(encoded, cap) == Ok(predicted)
    case (Crypt, PassThrough) =>
      && (params.cryptFilterName.None? || Matches(params.cryptFilterName.value, "Identity"))
      && encoded == data
    case (MetadataOnly, PassThrough) => encoded == data
    case _ => false
  }

  lemma DecodeUndoesEncoding(
      decoder: Decoder, params: DecodeParams, e: Encoding, p: Prediction, data: seq<byte>, encoded: seq<byte>,
      cap: nat, inflate: Inflate)
    requires EncodedAs(decoder, params, e, p, data, encoded, cap, inflate) && |data| <= cap
    ensures DecodeWith(decoder, encoded, params, cap, inflate) == Ok(DecoderOutput(data, decoder.MetadataOnly?))
  {
    hide AsciiHex.Decode, Ascii85.Decode, RunLength.Decode, Lzw.Decode, Lzw.Conforming, Lzw.Emit, Unpredict;
    match (decoder, e)
    case (Hex, HexText(text, trailing)) =>
      AsciiHex.DecodeUndoesSpelling(text, data, trailing, cap);
    case (Base85, Base85Text(text, rest)) =>
      Ascii85.DecodeUndoesEncode(text, data, rest, cap);
    case (Runs, RunPieces(pieces, trailing)) =>
      RunLength.DecodeUndoesEncode(pieces, trailing, cap);
    case (LzwCodes, LzwStream(codes, trailing)) =>
      var predicted :|
        && PredictedAs(p, params, data, predicted)
        && |predicted| <= cap
        && Lzw.Conforming(codes, Lzw.NewEncoder(), predicted)
        && (Lzw.EndsWithEod(codes) || trailing == [])
        && encoded
           == Bits.Pack(Lzw.Emit(codes, Lzw.NewEncoder(), predicted, params.earlyChange)) + trailing;
      Lzw.DecodeUndoesEncode(codes, predicted, trailing, params.earlyChange, cap);
      UnpredictUndoesPrediction(p, params, data, predicted, cap);
    case (Flate, Deflated) =>
      var predicted :|
        PredictedAs(p, params, data, predicted) && |predicted| <= cap && inflate(encoded, cap) == Ok(predicted);
      UnpredictUndoesPrediction(p, params, data, predicted, cap);
    case (Crypt, PassThrough) =>
    case (MetadataOnly, PassThrough) =>
  }

  lemma UnpredictUndoesPrediction(
      p: Prediction, params: DecodeParams, data: seq<byte>, predicted: seq<byte>, cap: nat)
    requires PredictedAs(p, params, data, predicted) && |data| <= cap
    ensures Unpredict(predicted, params, cap) == Ok(data)
  {
    match p
    case Unpredicted =>
    case PngRows(image, filters) =>
      UnPngUndoesFilter(image, filters, params, cap);
    case SampleRows(image) =>
      UnTiffRestoresImageIff(image, params, cap);
    case ByteRows(image) =>
      UnTiffUndoesDifference(image, params, cap);
  }

  /** The stages of a stream: `stages[0]` is the raw stream, `stages[i + 1]` what filter `i` makes of
      `stages[i]`, each within the cap. */
  ghost predicate Staged(
      stages: seq<seq<byte>>, filters: seq<seq<byte>>, params: seq<DecodeParams>, encodings: seq<Encoding>,
      predictions: seq<Prediction>, cap: nat, inflate: Inflate)
  {
    && |stages| == |filters| + 1 && |encodings| == |predictions| == |filters|
    && (forall i | 0 < i < |stages| :: |stages[i]| <= cap)
    && (forall i | 0 <= i < |filters| ::
          && DecoderNamed(filters[i]).Some?
          && EncodedAs(DecoderNamed(filters[i]).value, ParamsAt(params, i), encodings[i], predictions[i],
                       stages[i + 1], stages[i], cap, inflate))
  }

  /** The facts of a decoded chain: one per filter, output length of one being the input length of the next;
      a filter that is not decoded only records the length. */
  ghost predicate FactsOfStages(facts: seq<StreamFact>, stages: seq<seq<byte>>, filters: seq<seq<byte>>, n: nat)
    requires n <= |filters| && |stages| == |filters| + 1
  {
    && |facts| == n
    && forall i | 0 <= i < n ::
         facts[i] == if DecoderNamed(filters[i]) == Some(MetadataOnly) then FilterMetadataMode(filters[i], |stages[i + 1]|)
                     else FilterDecoded(filters[i], |stages[i]|, |stages[i + 1]|)
  }

  lemma {:induction false} ChainUndoesStages(
      stages: seq<seq<byte>>, filters: seq<seq<byte>>, params: seq<DecodeParams>, encodings: seq<Encoding>,
      predictions: seq<Prediction>, index: nat, facts: seq<StreamFact>, cap: nat, inflate: Inflate)
    requires Staged(stages, filters, params, encodings, predictions, cap, inflate) && index <= |filters|
    requires |stages[|filters|]| <= cap && FactsOfStages(facts, stages, filters, index)
    ensures var r := Chain(stages[index], filters, params, index, facts, cap, inflate);
            && r.Ok?
            && r.value.bytes == stages[|filters|]
            && FactsOfStages(r.value.facts, stages, filters, |filters|)
    decreases |filters| - index
  {
    hide DecoderNamed, EncodedAs, DecodeWith;
    if index < |filters| {
      DecodeUndoesEncoding(
        DecoderNamed(filters[index]).value, ParamsAt(params, index), encodings[index], predictions[index],
        stages[index + 1], stages[index], cap, inflate);
      var output := DecoderOutput(stages[index + 1], DecoderNamed(filters[index]).value.MetadataOnly?);
      var fact := FactOf(filters[index], stages[index], output);
      ChainUndoesStages(stages, filters, params, encodings, predictions, index + 1, facts + [fact], cap, inflate);
    }
  }

  /** Main result: the chain undoes any valid encoders applied in reverse order, and its facts
      record the lengths of the stages. */
  lemma ChainUndoesEncoders(
      stages: seq<seq<byte>>, filters: seq<seq<byte>>, params: seq<DecodeParams>, encodings: seq<Encoding>,
      predictions: seq<Prediction>, cap: nat, inflate: Inflate)
    requires Staged(stages, filters, params, encodings, predictions, cap, inflate)
    requires |stages[|filters|]| <= cap
    ensures var r := Chain(stages[0], filters, params, 0, [], cap, inflate);
            && r.Ok?
            && r.value.bytes == stages[|filters|]
            && FactsOfStages(r.value.facts, stages, filters, |filters|)
  {
    ChainUndoesStages(stages, filters, params, encodings, predictions, 0, [], cap, inflate);
  }
}
