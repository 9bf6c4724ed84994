/** Filter names, decode parameters and Crypt filters against the tables of section 7.4 of ISO 32000-1. */
module FilterTables {
  import opened Bytes
  import opened Cos
  import opened StandardTables
  import opened FilterChain
  import Encryption

  /** Table 6, with the abbreviations of table 94; images and encrypted data are passed on. */
  ghost predicate Stands(name: seq<byte>, decoder: Decoder) {
    match decoder
    case Flate => NamedIn(name, ["FlateDecode", "Fl"])
    case Hex => NamedIn(name, ["ASCIIHexDecode", "AHx"])
    case Base85 => NamedIn(name, ["ASCII85Decode", "A85"])
    case Runs => NamedIn(name, ["RunLengthDecode", "RL"])
    case LzwCodes => NamedIn(name, ["LZWDecode", "LZW"])
    case Crypt => NamedIn(name, ["Crypt"])
    case MetadataOnly => NamedIn(name, ["DCTDecode", "JPXDecode", "JBIG2Decode", "CCITTFaxDecode"])
  }

  /** A name that is spelled so has that length and those first characters. */
  lemma Spelled(name: seq<byte>, text: string)
    requires |text| >= 2 && forall c | c in text :: c as int < 256
    ensures Spells(name, text) <==> Matches(name, text)
    ensures Matches(name, text) ==> |name| == |text| && name[0] == text[0] as int && name[1] == text[1] as int
  {
  }

  lemma NamedInOne(name: seq<byte>, a: string)
    ensures NamedIn(name, [a]) <==> Spells(name, a)
  {
    hide Spells;
    assert [a][0] == a;
  }

  lemma NamedInTwo(name: seq<byte>, a: string, b: string)
    ensures NamedIn(name, [a, b]) <==> Spells(name, a) || Spells(name, b)
  {
    hide Spells;
    assert [a, b][0] == a && [a, b][1] == b;
  }

  lemma NamedInFour(name: seq<byte>, a: string, b: string, c: string, d: string)
    ensures NamedIn(name, [a, b, c, d]) <==> Spells(name, a) || Spells(name, b) || Spells(name, c) || Spells(name, d)
  {
    hide Spells;
    var all := [a, b, c, d];
    assert all[0] == a && all[1] == b && all[2] == c && all[3] == d;
  }

  /** Each name runs the decoder the table gives it, and no other name runs one. */
  lemma DecoderByTable(name: seq<byte>, decoder: Decoder)
    ensures DecoderNamed(name) == Some(decoder) <==> Stands(name, decoder)
  {
    hide Spells, Matches, NamedIn;
    Spelled(name, "FlateDecode");
    Spelled(name, "Fl");
    Spelled(name, "ASCIIHexDecode");
    Spelled(name, "AHx");
    Spelled(name, "ASCII85Decode");
    Spelled(name, "A85");
    Spelled(name, "RunLengthDecode");
    Spelled(name, "RL");
    Spelled(name, "LZWDecode");
    Spelled(name, "LZW");
    Spelled(name, "Crypt");
    Spelled(name, "DCTDecode");
    Spelled(name, "JPXDecode");
    Spelled(name, "JBIG2Decode");
    Spelled(name, "CCITTFaxDecode");
    NamedInTwo(name, "FlateDecode", "Fl");
    NamedInTwo(name, "ASCIIHexDecode", "AHx");
    NamedInTwo(name, "ASCII85Decode", "A85");
    NamedInTwo(name, "RunLengthDecode", "RL");
    NamedInTwo(name, "LZWDecode", "LZW");
    NamedInFour(name, "DCTDecode", "JPXDecode", "JBIG2Decode", "CCITTFaxDecode");
    NamedInOne(name, "Crypt");
  }

  // ---------------------------------------------------------------------------------------------
  // Decode parameters, table 8
  // ---------------------------------------------------------------------------------------------

  /** An integer entry within a cap, otherwise its default. */
  function NumberOr(d: Dictionary, key: string, cap: int, default: int): int
    requires forall c | c in key :: c as int < 256
  {
    match Entry(d, key)
    case Some(Integer(n)) => if 0 <= n <= cap then n else default
    case _ => default
  }

  function NameOrNone(d: Dictionary, key: string): Option<seq<byte>>
    requires forall c | c in key :: c as int < 256
  {
    match Entry(d, key)
    case Some(Name(bytes)) => Some(bytes)
    case _ => None
  }

  lemma ParamsByTable(d: Dictionary)
    ensures var p := ParamsOf(d);
            && p.predictor == NumberOr(d, "Predictor", 65535, 1)
            && p.colors == NumberOr(d, "Colors", 65535, 1)
            && p.bitsPerComponent == NumberOr(d, "BitsPerComponent", 65535, 8)
            && p.columns == NumberOr(d, "Columns", 4294967295, 1)
            && p.earlyChange == NumberOr(d, "EarlyChange", 255, 1)
            && p.cryptFilterName == NameOrNone(d, "Name")
  {
  }

  lemma DefaultsByTable()
    ensures DEFAULT_PARAMS == ParamsOf(map[])
  {
  }

  /** Those of a single dictionary for the first filter, those of an array by position, otherwise the defaults. */
  function OwnTo(d: Dictionary, i: nat): DecodeParams {
    match Entry(d, "DecodeParms")
    case Some(Dict(entries)) => ParamsOf(if i == 0 then entries else map[])
    case Some(Array(items)) => ParamsOf(if i < |items| && items[i].Dict? then items[i].entries else map[])
    case _ => ParamsOf(map[])
  }

  /** The parameters a kept filter is decoded with, by its position among the kept ones. */
  lemma ParamsGiven(d: Dictionary, count: nat, i: nat)
    requires i < count
    ensures ParamsAt(StreamDecodeParams(d, count), i) == OwnTo(d, i)
  {
    DefaultsByTable();
    hide ParamsOf;
  }

  // ---------------------------------------------------------------------------------------------
  // Crypt filters
  // ---------------------------------------------------------------------------------------------

  /** The filter at a position: an item of an array, or the only name, whatever the position. */
  function FilterAt(d: Dictionary, i: nat): Option<CosObject> {
    var filter := Entry(d, "Filter");
    if filter.Some? && filter.value.Array? then
      if i < |filter.value.items| then Some(filter.value.items[i]) else None
    else filter
  }

  /** The parameters at a position; a single dictionary serves every position. */
  function ParmsAt(d: Dictionary, i: nat): Option<CosObject> {
    var params := Entry(d, "DecodeParms");
    if params.Some? && params.value.Array? then
      if i < |params.value.items| then Some(params.value.items[i]) else None
    else params
  }

  /** A filter is an Identity Crypt filter when it is called `Crypt` and its parameters name `Identity`. */
  lemma IdentityCryptIff(d: Dictionary, i: nat)
    ensures IsIdentityCrypt(d, i)
       <==> && FilterAt(d, i) == Some(Name(Ascii("Crypt")))
            && ParmsAt(d, i).Some? && ParmsAt(d, i).value.Dict?
            && Entry(ParmsAt(d, i).value.entries, "Name") == Some(Name(Ascii("Identity")))
  {
  }

  /** A single filter is kept unless it is an Identity Crypt filter. */
  lemma SingleFilterKept(d: Dictionary, name: seq<byte>)
    requires Entry(d, "Filter") == Some(Name(name))
    ensures StreamFilters(d) == if IsIdentityCrypt(d, 0) then [] else [name]
  {
  }

  /** Of an array, its kept items; anything else names no filter. */
  lemma ListedFiltersKept(d: Dictionary)
    requires Entry(d, "Filter").None? || !Entry(d, "Filter").value.Name?
    ensures var filter := Entry(d, "Filter");
            StreamFilters(d)
            == if filter.Some? && filter.value.Array? then KeptFilters(d, filter.value.items, 0) else []
  {
  }

  predicate IsCryptName(name: seq<byte>) {
    name == Ascii("Crypt")
  }

  lemma OneFilterOn(filters: seq<seq<byte>>, params: seq<DecodeParams>, index: nat)
    requires index < |filters|
    ensures var (kept, given) := Encryption.WithoutCrypt(filters, params, index + 1);
            Encryption.WithoutCrypt(filters, params, index)
            == if IsCryptName(filters[index]) then (kept, given)
               else ([filters[index]] + kept, [if index < |params| then params[index] else ParamsOf(map[])] + given)
  {
    DefaultsByTable();
    hide ParamsOf, DEFAULT_PARAMS;
  }

  /** The filters and parameters at these positions. */
  ghost predicate TakenAt(
      filters: seq<seq<byte>>, params: seq<DecodeParams>, positions: seq<nat>, kept: seq<seq<byte>>,
      given: seq<DecodeParams>)
  {
    && |kept| == |given| == |positions|
    && forall j | 0 <= j < |positions| ::
         && positions[j] < |filters| && kept[j] == filters[positions[j]]
         && given[j] == if positions[j] < |params| then params[positions[j]] else ParamsOf(map[])
  }

  lemma TakenInFront(
      filters: seq<seq<byte>>, params: seq<DecodeParams>, index: nat, positions: seq<nat>, kept: seq<seq<byte>>,
      given: seq<DecodeParams>)
    requires index < |filters| && TakenAt(filters, params, positions, kept, given)
    ensures TakenAt(
      filters, params, [index] + positions, [filters[index]] + kept,
      [if index < |params| then params[index] else ParamsOf(map[])] + given)
  {
    hide ParamsOf;
  }

  /** Decryption drops the Crypt filters and keeps the others in order with the parameters at their positions. */
  lemma {:induction false} WithoutCryptAt(filters: seq<seq<byte>>, params: seq<DecodeParams>, index: nat)
    returns (positions: seq<nat>)
    requires index <= |filters|
    ensures forall j | 0 <= j < |positions| :: index <= positions[j] < |filters|
    ensures forall i, k | 0 <= i < k < |positions| :: positions[i] < positions[k]
    ensures forall i | index <= i < |filters| :: i in positions <==> !IsCryptName(filters[i])
    ensures var (kept, given) := Encryption.WithoutCrypt(filters, params, index);
            TakenAt(filters, params, positions, kept, given)
    decreases |filters| - index
  {
    hide IsCryptName;
    if index == |filters| {
      positions := [];
    } else {
      OneFilterOn(filters, params, index);
      hide TakenAt, Encryption.WithoutCrypt;
      var rest := WithoutCryptAt(filters, params, index + 1);
      var (kept, given) := Encryption.WithoutCrypt(filters, params, index + 1);
      if IsCryptName(filters[index]) {
        positions := rest;
      } else {
        TakenInFront(filters, params, index, rest, kept, given);
        positions := [index] + rest;
      }
    }
  }

  /** Metadata streams stay clear where the document says so, and all streams under the Identity method. */
  lemma StaysClearIff(handler: Encryption.Handler, d: Dictionary)
    ensures Encryption.StaysClear(handler, d)
       <==> handler.streamMethod.Identity?
            || (Entry(d, "Type") == Some(Name(Ascii("Metadata"))) && !handler.encryptMetadata)
  {
  }
}
