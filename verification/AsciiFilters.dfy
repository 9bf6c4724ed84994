/** White space inside encoded text, which every ASCII decoder skips. */
module EncodedText {
  import opened Bytes
  import opened StandardTables

  function DropWs(text: seq<byte>): (r: seq<byte>)
    ensures forall k | 0 <= k < |r| :: !WhiteSpace(r[k])
  {
    if text == [] then []
    else if WhiteSpace(text[0]) then DropWs(text[1..])
    else [text[0]] + DropWs(text[1..])
  }

  lemma {:induction false} DropWsConcat(a: seq<byte>, b: seq<byte>)
    ensures DropWs(a + b) == DropWs(a) + DropWs(b)
  {
    if a == [] {
      assert a + b == b;
    } else {
      DropWsConcat(a[1..], b);
      assert (a + b)[1..] == a[1..] + b;
    }
  }

  lemma {:induction false} DropWsKeepsDense(a: seq<byte>)
    requires forall k | 0 <= k < |a| :: !WhiteSpace(a[k])
    ensures DropWs(a) == a
  {
    if a != [] {
      DropWsKeepsDense(a[1..]);
    }
  }
}

/** ASCIIHexDecode, section 7.4.2 of ISO 32000-1. */
module AsciiHex {
  import opened Bytes
  import opened EncodedText
  import opened StandardTables

  const EOD: byte := 62

  /** The decoding loop over the rest of the input. */
  function Run(input: seq<byte>, high: Option<byte>, output: seq<byte>, cap: nat): Result<seq<byte>>
    requires high.Some? ==> high.value < 16
  {
    if input == [] || (!IsWs(input[0]) && input[0] == EOD) then
      if high.None? then Ok(output) else ExtendLimited(output, [high.value * 16], cap)
    else if IsWs(input[0]) then Run(input[1..], high, output, cap)
    else if HexDigit(input[0]) == None then Err(StreamDecode(InvalidHexDigit))
    else
      var nibble := HexDigit(input[0]).value;
      if high.None? then Run(input[1..], Some(nibble), output, cap)
      else
        var next :- ExtendLimited(output, [high.value * 16 + nibble], cap);
        Run(input[1..], None, next, cap)
  }

  function Decode(input: seq<byte>, cap: nat): Result<seq<byte>> {
    Run(input, None, [], cap)
  }

  method DecodeAsciiHex(input: seq<byte>, cap: nat) returns (r: Result<seq<byte>>)
    ensures r == Decode(input, cap)
    ensures r.Ok? ==> |r.value| <= cap
  {
    var output: seq<byte> := [];
    var high: Option<byte> := None;
    var i := 0;
    while i < |input|
      invariant 0 <= i <= |input|
      invariant high.Some? ==> high.value < 16
      invariant |output| <= cap
      invariant Run(input[i..], high, output, cap) == Decode(input, cap)
    {
      var b := input[i];
      assert input[i..][1..] == input[i + 1..];
      if IsWs(b) {
        i := i + 1;
        continue;
      }
      if b == 62 {
        break;
      }
      var nibble := HexDigit(b);
      if nibble == None {
        return Err(StreamDecode(InvalidHexDigit));
      }
      if high.Some? {
        if |output| + 1 > cap {
          return Err(LimitExceeded(MaxStreamDecodeBytes));
        }
        output := output + [high.value * 16 + nibble.value];
        high := None;
      } else {
        high := nibble;
      }
      i := i + 1;
    }
    if high.Some? {
      if |output| + 1 > cap {
        return Err(LimitExceeded(MaxStreamDecodeBytes));
      }
      output := output + [high.value * 16];
    }
    return Ok(output);
  }

  /** `digits` spells `data` two hexadecimal digits a byte, in either case; a final digit 0 may be
      left out. */
  ghost predicate Spells(digits: seq<byte>, data: seq<byte>) {
    if data == [] then digits == []
    else if |digits| == 1 then |data| == 1 && HexValueOf(digits[0]).Some? && HexValueOf(digits[0]).value * 16 == data[0]
    else
      && |digits| >= 2
      && HexValueOf(digits[0]) == Some(data[0] / 16)
      && HexValueOf(digits[1]) == Some(data[0] % 16)
      && Spells(digits[2..], data[1..])
  }

  /** Skipping white space commutes with the loop. */
  lemma {:induction false} RunSkipsWs(input: seq<byte>, high: Option<byte>, output: seq<byte>, cap: nat)
    requires high.Some? ==> high.value < 16
    ensures Run(input, high, output, cap) == Run(DropWs(input), high, output, cap)
  {
    if input != [] {
      var dense := DropWs(input);
      if IsWs(input[0]) {
        RunSkipsWs(input[1..], high, output, cap);
      } else {
        assert dense[0] == input[0] && dense[1..] == DropWs(input[1..]);
        if input[0] != EOD && HexDigit(input[0]).Some? {
          var nibble := HexDigit(input[0]).value;
          if high.None? {
            RunSkipsWs(input[1..], Some(nibble), output, cap);
          } else if |output| + 1 <= cap {
            RunSkipsWs(input[1..], None, output + [high.value * 16 + nibble], cap);
          }
        }
      }
    }
  }

  lemma {:induction false} RunUndoesSpelling(
      digits: seq<byte>, data: seq<byte>, rest: seq<byte>, output: seq<byte>, cap: nat)
    requires Spells(digits, data)
    requires rest == [] || rest[0] == EOD
    requires |output| + |data| <= cap
    ensures Run(digits + rest, None, output, cap) == Ok(output + data)
    decreases data
  {
    var input := digits + rest;
    if data == [] {
      assert input == rest && output + data == output;
    } else if |digits| == 1 {
      assert input[1..] == rest;
      assert output + [data[0]] == output + data;
    } else {
      assert input[1..][1..] == digits[2..] + rest;
      assert data[0] == data[0] / 16 * 16 + data[0] % 16;
      RunUndoesSpelling(digits[2..], data[1..], rest, output + [data[0]], cap);
      assert output + [data[0]] + data[1..] == output + data;
    }
  }

  /** Main result: any spelling of `data`, white space anywhere in it, with or without the
      end-of-data mark and whatever follows the mark, decodes to `data`. */
  lemma DecodeUndoesSpelling(text: seq<byte>, data: seq<byte>, trailing: seq<byte>, cap: nat)
    requires Spells(DropWs(text), data) && |data| <= cap
    requires trailing == [] || trailing[0] == EOD
    ensures Decode(text + trailing, cap) == Ok(data)
  {
    RunSkipsWs(text + trailing, None, [], cap);
    DropWsConcat(text, trailing);
    RunUndoesSpelling(DropWs(text), data, DropWs(trailing), [], cap);
    assert [] + data == data;
  }

  /** Decoding at most halves, the odd digit rounded up. */
  lemma {:induction false} RunHalves(input: seq<byte>, high: Option<byte>, output: seq<byte>, cap: nat)
    requires high.Some? ==> high.value < 16
    ensures var r := Run(input, high, output, cap);
            r.Ok? ==> 2 * |r.value| <= 2 * |output| + |input| + 1 + (if high.Some? then 1 else 0)
  {
    if input != [] && (IsWs(input[0]) || input[0] != EOD) {
      if IsWs(input[0]) {
        RunHalves(input[1..], high, output, cap);
      } else if HexDigit(input[0]).Some? {
        var nibble := HexDigit(input[0]).value;
        if high.None? {
          RunHalves(input[1..], Some(nibble), output, cap);
        } else if |output| + 1 <= cap {
          RunHalves(input[1..], None, output + [high.value * 16 + nibble], cap);
        }
      }
    }
  }

  lemma DecodedAtMostHalf(input: seq<byte>, cap: nat)
    ensures var r := Decode(input, cap);
            r.Ok? ==> |r.value| <= (|input| + 1) / 2
  {
    RunHalves(input, None, [], cap);
  }
}

/** RunLengthDecode, section 7.4.5 of ISO 32000-1. */
module RunLength {
  import opened Bytes

  function Fill(b: byte, n: nat): (r: seq<byte>)
    ensures |r| == n
    ensures forall k | 0 <= k < n :: r[k] == b
  {
    seq(n, _ => b)
  }

  function Run(input: seq<byte>, output: seq<byte>, cap: nat): Result<seq<byte>>
    decreases |input|
  {
    if input == [] || input[0] == 128 then Ok(output)
    else if input[0] < 128 then
      var count := input[0] + 1;
      if 1 + count > |input| then Err(StreamDecode(RunLengthLiteralExceedsInput))
      else
        var next :- ExtendLimited(output, input[1..1 + count], cap);
        Run(input[1 + count..], next, cap)
    else if |input| == 1 then Err(StreamDecode(RunLengthRepeatMissingByte))
    else
      var next :- ExtendLimited(output, Fill(input[1], 257 - input[0]), cap);
      Run(input[2..], next, cap)
  }

  function Decode(input: seq<byte>, cap: nat): Result<seq<byte>> {
    Run(input, [], cap)
  }

  method DecodeRunLength(input: seq<byte>, cap: nat) returns (r: Result<seq<byte>>)
    ensures r == Decode(input, cap)
    ensures r.Ok? ==> |r.value| <= cap
  {
    var output: seq<byte> := [];
    var pos := 0;
    while pos < |input|
      invariant 0 <= pos <= |input|
      invariant |output| <= cap
      invariant Run(input[pos..], output, cap) == Decode(input, cap)
    {
      var rest := input[pos..];
      var length := input[pos];
      pos := pos + 1;
      if length == 128 {
        break;
      } else if length <= 127 {
        var count: int := length + 1;
        var end := pos + count;
        if end > |input| {
          return Err(StreamDecode(RunLengthLiteralExceedsInput));
        }
        assert rest[1..1 + count] == input[pos..end] && rest[1 + count..] == input[end..];
        if |output| + count > cap {
          return Err(LimitExceeded(MaxStreamDecodeBytes));
        }
        output := output + input[pos..end];
        pos := end;
      } else {
        if pos >= |input| {
          return Err(StreamDecode(RunLengthRepeatMissingByte));
        }
        var value := input[pos];
        pos := pos + 1;
        var count: int := 257 - length;
        assert rest[1] == value && rest[2..] == input[pos..];
        var fits, longer := RepeatByte(output, value, count, cap);
        if !fits {
          return Err(LimitExceeded(MaxStreamDecodeBytes));
        }
        output := longer;
      }
    }
    return Ok(output);
  }

  /** One byte after the other, up to the cap. */
  method RepeatByte(output: seq<byte>, value: byte, count: nat, cap: nat) returns (fits: bool, longer: seq<byte>)
    requires |output| <= cap
    ensures fits <==> |output| + count <= cap
    ensures fits ==> longer == output + Fill(value, count)
  {
    longer := output;
    var k := 0;
    while k < count
      invariant 0 <= k <= count
      invariant longer == output + Fill(value, k) && |longer| <= cap
    {
      if |longer| + 1 > cap {
        return false, longer;
      }
      longer := longer + [value];
      k := k + 1;
      assert longer == output + Fill(value, k);
    }
    return true, longer;
  }

  /** One run of a valid encoding: up to 128 bytes as they are, or one byte repeated 2 to 128 times. */
  datatype Piece = Literal(bytes: seq<byte>) | Repeat(b: byte, count: nat) {
    predicate Valid() {
      match this
      case Literal(bytes) => 1 <= |bytes| <= 128
      case Repeat(_, count) => 2 <= count <= 128
    }

    function Encoded(): seq<byte>
      requires Valid()
    {
      match this
      case Literal(bytes) => [|bytes| - 1] + bytes
      case Repeat(b, count) => [257 - count, b]
    }

    function Meaning(): seq<byte> {
      match this
      case Literal(bytes) => bytes
      case Repeat(b, count) => Fill(b, count)
    }
  }

  ghost predicate ValidPieces(pieces: seq<Piece>) {
    forall k | 0 <= k < |pieces| :: pieces[k].Valid()
  }

  function Encode(pieces: seq<Piece>): seq<byte>
    requires ValidPieces(pieces)
  {
    if pieces == [] then [] else pieces[0].Encoded() + Encode(pieces[1..])
  }

  function Meaning(pieces: seq<Piece>): seq<byte> {
    if pieces == [] then [] else pieces[0].Meaning() + Meaning(pieces[1..])
  }

  lemma RunReadsPiece(piece: Piece, more: seq<byte>, output: seq<byte>, cap: nat)
    requires piece.Valid() && |output| + |piece.Meaning()| <= cap
    ensures Run(piece.Encoded() + more, output, cap) == Run(more, output + piece.Meaning(), cap)
  {
    var input := piece.Encoded() + more;
    match piece
    case Literal(bytes) =>
      assert input[1..1 + |bytes|] == bytes && input[1 + |bytes|..] == more;
    case Repeat(b, count) =>
      assert input[2..] == more;
  }

  lemma {:induction false} RunUndoesEncode(pieces: seq<Piece>, trailing: seq<byte>, output: seq<byte>, cap: nat)
    requires ValidPieces(pieces) && |output| + |Meaning(pieces)| <= cap
    requires trailing == [] || trailing[0] == 128
    ensures Run(Encode(pieces) + trailing, output, cap) == Ok(output + Meaning(pieces))
    decreases pieces
  {
    if pieces == [] {
      assert Encode(pieces) + trailing == trailing && output + Meaning(pieces) == output;
    } else {
      var first, rest := pieces[0], pieces[1..];
      var next := output + first.Meaning();
      assert Meaning(pieces) == first.Meaning() + Meaning(rest);
      assert Encode(pieces) == first.Encoded() + Encode(rest);
      hide Run, Meaning, Encode, Piece.Meaning, Piece.Encoded, Piece.Valid;
      calc {
        Run(Encode(pieces) + trailing, output, cap);
      ==  { assert Encode(pieces) + trailing == first.Encoded() + (Encode(rest) + trailing); }
        Run(first.Encoded() + (Encode(rest) + trailing), output, cap);
      ==  { RunReadsPiece(first, Encode(rest) + trailing, output, cap); }
        Run(Encode(rest) + trailing, next, cap);
      ==  { RunUndoesEncode(rest, trailing, next, cap); }
        Ok(next + Meaning(rest));
      ==  { assert next + Meaning(rest) == output + Meaning(pieces); }
        Ok(output + Meaning(pieces));
      }
    }
  }

  /** Main result: every valid encoding decodes to what its runs mean. */
  lemma DecodeUndoesEncode(pieces: seq<Piece>, trailing: seq<byte>, cap: nat)
    requires ValidPieces(pieces) && |Meaning(pieces)| <= cap
    requires trailing == [] || trailing[0] == 128
    ensures Decode(Encode(pieces) + trailing, cap) == Ok(Meaning(pieces))
  {
    RunUndoesEncode(pieces, trailing, [], cap);
    assert [] + Meaning(pieces) == Meaning(pieces);
  }

  /** Every byte string has a valid encoding. */
  lemma {:induction false} EveryByteStringEncodes(data: seq<byte>) returns (pieces: seq<Piece>)
    ensures ValidPieces(pieces) && Meaning(pieces) == data
    decreases |data|
  {
    if data == [] {
      pieces := [];
    } else {
      var n := if |data| < 128 then |data| else 128;
      var rest := EveryByteStringEncodes(data[n..]);
      pieces := [Literal(data[..n])] + rest;
      assert pieces[1..] == rest;
      assert data[..n] + data[n..] == data;
    }
  }

  lemma {:induction false} RunExpandsAtMost64(input: seq<byte>, output: seq<byte>, cap: nat)
    ensures var r := Run(input, output, cap);
            r.Ok? ==> |r.value| <= |output| + 64 * |input|
    decreases |input|
  {
    if input != [] && input[0] < 128 && 2 + input[0] <= |input| {
      var count := input[0] + 1;
      RunExpandsAtMost64(input[1 + count..], output + input[1..1 + count], cap);
    } else if |input| >= 2 && input[0] > 128 {
      RunExpandsAtMost64(input[2..], output + Fill(input[1], 257 - input[0]), cap);
    }
  }

  lemma DecodedAtMost64Times(input: seq<byte>, cap: nat)
    ensures var r := Decode(input, cap);
            r.Ok? ==> |r.value| <= 64 * |input|
  {
    RunExpandsAtMost64(input, [], cap);
  }
}
