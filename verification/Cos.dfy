/** The object model of a PDF file, section 7.3 of ISO 32000-1. */
module Cos {
  import opened Bytes

  type u16 = n: int | 0 <= n < 0x1_0000
  type u32 = n: int | 0 <= n < 0x1_0000_0000
  type positiveU32 = n: int | 0 < n < 0x1_0000_0000 witness 1
  type i64 = n: int | -0x8000_0000_0000_0000 <= n < 0x8000_0000_0000_0000

  datatype ObjectKey = ObjectKey(number: positiveU32, generation: u16)

  type Dictionary = map<seq<byte>, CosObject>

  /** A real number is kept as the digits it was written with. */
  datatype CosObject =
    | Null
    | Boolean(flag: bool)
    | Integer(value: i64)
    | Real(digits: seq<byte>)
    | Name(bytes: seq<byte>)
    | String(bytes: seq<byte>)
    | Array(items: seq<CosObject>)
    | Dict(entries: map<seq<byte>, CosObject>)
    | Stream(stream: StreamObject)
    | Reference(key: ObjectKey)
  {
    /** The dictionary of a dictionary or stream object. */
    function AsDictionary(): Option<Dictionary> {
      match this
      case Dict(entries) => Some(entries)
      case Stream(stream) => Some(stream.dictionary)
      case _ => None
    }
  }

  datatype DecodeParams = DecodeParams(
    predictor: u16,
    colors: u16,
    bitsPerComponent: u16,
    columns: u32,
    earlyChange: byte,
    cryptFilterName: Option<seq<byte>>)

  const DEFAULT_PARAMS := DecodeParams(1, 1, 8, 1, 1, None)

  /** A stream: its dictionary, the source its raw bytes lie in, and what decoding needs. */
  datatype StreamObject = StreamObject(
    dictionary: map<seq<byte>, CosObject>,
    rawStart: nat,
    rawEnd: nat,
    declaredLength: Option<nat>,
    discoveredLength: nat,
    filters: seq<seq<byte>>,
    decodeParams: seq<DecodeParams>,
    rawSource: seq<byte>,
    streamKeywordCrlfCompliant: bool,
    endstreamKeywordEolCompliant: bool)
  {
    function RawBytes(): Result<seq<byte>> {
      if rawStart <= rawEnd <= |rawSource| then Ok(rawSource[rawStart..rawEnd]) else Err(Malformed)
    }
  }

  datatype IndirectObject = IndirectObject(key: ObjectKey, offset: nat, value: CosObject)

  function Get(d: Dictionary, key: string): Option<CosObject>
    requires forall c | c in key :: c as int < 256
  {
    var k := Ascii(key);
    if k in d then Some(d[k]) else None
  }

  predicate Matches(name: seq<byte>, text: string)
    requires forall c | c in text :: c as int < 256
  {
    name == Ascii(text)
  }

  predicate IsName(value: Option<CosObject>, text: string)
    requires forall c | c in text :: c as int < 256
  {
    value.Some? && value.value.Name? && Matches(value.value.bytes, text)
  }

  function IntegerOf(value: Option<CosObject>): Option<i64> {
    if value.Some? && value.value.Integer? then Some(value.value.value) else None
  }
}
