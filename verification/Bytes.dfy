/** Bytes, results and errors shared by every part of the model. */
module Bytes {
  type byte = b: int | 0 <= b < 256

  datatype Option<+T> = None | Some(value: T)

  /** What a stream decoder can object to; one value per message of the decoders. */
  datatype DecodeFault =
    | InvalidHexDigit
    | InvalidAscii85Digit
    | ZeroGroupInsidePartialGroup
    | Ascii85GroupOverflow
    | RunLengthLiteralExceedsInput
    | RunLengthRepeatMissingByte
    | InvalidLzwCode
    | LzwMissingPreviousEntry
    | LzwEmptyPreviousEntry
    | LzwEmptyEntry
    | UnsupportedPredictor
    | InvalidPredictorGeometry
    | PredictorRowMismatch
    | InvalidPngFilter
    | FlateFailure

  datatype Limit =
    | MaxObjects
    | MaxObjectDepth
    | MaxArrayLen
    | MaxDictEntries
    | MaxNameBytes
    | MaxStringBytes
    | MaxStreamDeclaredBytes
    | MaxStreamDecodeBytes
    | MaxOperatorNameBytes
    | MaxOperandBytes
    | MaxOperandCount
    | MaxInlineImageBytes

  datatype ParseError =
    | Malformed
    | LimitExceeded(limit: Limit)
    | ArithmeticOverflow
    | StreamDecode(fault: DecodeFault)
    | UnsupportedFilter

  datatype Result<+T> = Ok(value: T) | Err(error: ParseError) {
    predicate IsFailure() {
      Err?
    }

    function PropagateFailure<U>(): Result<U>
      requires Err?
    {
      Err(error)
    }

    function Extract(): T
      requires Ok?
    {
      value
    }
  }

  predicate OccursAt(haystack: seq<byte>, needle: seq<byte>, i: nat) {
    i + |needle| <= |haystack| && haystack[i..i + |needle|] == needle
  }

  lemma Suffix<T>(s: seq<T>, i: nat, k: nat)
    requires i + k <= |s|
    ensures s[i..][k..] == s[i + k..]
  {
  }

  lemma Piece<T>(s: seq<T>, i: nat, j: nat)
    requires i <= j <= |s|
    ensures s[i..][..j - i] == s[i..j]
  {
  }

  predicate IsWs(b: byte) {
    b == 0 || b == 9 || b == 10 || b == 12 || b == 13 || b == 32
  }

  /** The bytes of an ASCII literal. */
  function Ascii(text: string): (r: seq<byte>)
    requires forall c | c in text :: c as int < 256
    ensures |r| == |text|
    ensures forall k | 0 <= k < |r| :: r[k] == text[k] as int
  {
    var codes := seq(|text|, i requires 0 <= i < |text| => text[i] as int);
    assert forall k | 0 <= k < |codes| :: codes[k] < 256 by {
      assert forall k | 0 <= k < |text| :: text[k] in text;
    }
    codes
  }

  function HexDigit(b: byte): Option<byte> {
    if 48 <= b <= 57 then Some(b - 48)
    else if 97 <= b <= 102 then Some(b - 97 + 10)
    else if 65 <= b <= 70 then Some(b - 65 + 10)
    else None
  }

  /** Appending under a cap on the decoded length, as every decoder does it. */
  function ExtendLimited(output: seq<byte>, bytes: seq<byte>, cap: nat): Result<seq<byte>> {
    if |output| + |bytes| > cap then Err(LimitExceeded(MaxStreamDecodeBytes)) else Ok(output + bytes)
  }
}

/** The few facts about products and quotients that the solver does not find by itself. */
module Arithmetic {
  lemma MulMonotonic(m: nat, a: int, b: int)
    requires a <= b
    ensures m * a <= m * b
  {
  }

  /** A quotient and a remainder are determined by their equation. */
  lemma DivIs(x: int, m: int, q: int, r: int)
    requires 0 <= r < m && x == m * q + r
    ensures x / m == q && x % m == r
  {
    var d, e := x / m, x % m;
    assert x == m * d + e && 0 <= e < m;
    assert m * (q + 1) == m * q + m && m * (d + 1) == m * d + m;
    if d > q {
      MulMonotonic(m, q + 1, d);
    } else if d < q {
      MulMonotonic(m, d + 1, q);
    }
  }
}
