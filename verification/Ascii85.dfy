/** ASCII85Decode, section 7.4.3 of ISO 32000-1: the decoder, the encoder, and the rounding argument
    for a final partial group. */
module Ascii85 {
  import opened Arithmetic
  import opened Bytes
  import opened EncodedText

  const TILDE: byte := 126
  const GREATER: byte := 62
  const Z: byte := 122
  const FIRST: byte := 33
  const LAST: byte := 117
  const TWO32 := 0x1_0000_0000

  type digit = d: int | 0 <= d < 85

  // ---------------------------------------------------------------------------------------------
  // The decoder
  // ---------------------------------------------------------------------------------------------

  /** The base-85 number of a group, unless a 32-bit accumulator overflows on the way. */
  function GroupValue(group: seq<digit>, acc: nat): Option<nat>
    requires acc < TWO32
    ensures GroupValue(group, acc).Some? ==> GroupValue(group, acc).value < TWO32
  {
    if group == [] then Some(acc)
    else if acc * 85 >= TWO32 || acc * 85 + group[0] >= TWO32 then None
    else GroupValue(group[1..], acc * 85 + group[0])
  }

  function BigEndian(v: nat): (r: seq<byte>)
    requires v < TWO32
    ensures |r| == 4
  {
    [v / 0x100_0000, v / 0x1_0000 % 256, v / 256 % 256, v % 256]
  }

  function AppendGroup(output: seq<byte>, group: seq<digit>, n: nat, cap: nat): Result<seq<byte>>
    requires n <= 4
  {
    var v := GroupValue(group, 0);
    if v.None? then Err(StreamDecode(Ascii85GroupOverflow))
    else ExtendLimited(output, BigEndian(v.value)[..n], cap)
  }

  function Padded(group: seq<digit>): (r: seq<digit>)
    requires |group| <= 5
    ensures |r| == 5
    decreases 5 - |group|
  {
    if |group| == 5 then group else Padded(group + [84])
  }

  function Finish(group: seq<digit>, output: seq<byte>, cap: nat): Result<seq<byte>>
    requires |group| < 5
  {
    if group == [] then Ok(output) else AppendGroup(output, Padded(group), |group| - 1, cap)
  }

  /** The decoding loop over the rest of the input. */
  function Run(input: seq<byte>, group: seq<digit>, output: seq<byte>, cap: nat): Result<seq<byte>>
    requires |group| < 5
  {
    if input == [] then Finish(group, output, cap)
    else if IsWs(input[0]) then Run(input[1..], group, output, cap)
    else if input[0] == TILDE && |input| > 1 && input[1] == GREATER then Finish(group, output, cap)
    else if input[0] == Z then
      if group != [] then Err(StreamDecode(ZeroGroupInsidePartialGroup))
      else
        var next :- ExtendLimited(output, [0, 0, 0, 0], cap);
        Run(input[1..], group, next, cap)
    else if !(FIRST <= input[0] <= LAST) then Err(StreamDecode(InvalidAscii85Digit))
    else
      var longer := group + [input[0] - FIRST];
      if |longer| == 5 then
        var next :- AppendGroup(output, longer, 4, cap);
        Run(input[1..], [], next, cap)
      else Run(input[1..], longer, output, cap)
  }

  function Decode(input: seq<byte>, cap: nat): Result<seq<byte>> {
    Run(input, [], [], cap)
  }

  method AppendAscii85Group(output: seq<byte>, group: seq<digit>, outputBytes: nat, cap: nat)
    returns (r: Result<seq<byte>>)
    requires outputBytes <= 4
    ensures r == AppendGroup(output, group, outputBytes, cap)
  {
    var value := 0;
    var k := 0;
    while k < |group|
      invariant 0 <= k <= |group| && 0 <= value < TWO32
      invariant GroupValue(group[k..], value) == GroupValue(group, 0)
    {
      assert group[k..][1..] == group[k + 1..];
      if value * 85 >= TWO32 || value * 85 + group[k] >= TWO32 {
        return Err(StreamDecode(Ascii85GroupOverflow));
      }
      value := value * 85 + group[k];
      k := k + 1;
    }
    var bytes := BigEndian(value);
    return ExtendLimited(output, bytes[..outputBytes], cap);
  }

  method DecodeAscii85(input: seq<byte>, cap: nat) returns (r: Result<seq<byte>>)
    ensures r == Decode(input, cap)
    ensures r.Ok? ==> |r.value| <= cap
  {
    var output: seq<byte> := [];
    var group: seq<digit> := [];
    var i := 0;
    while i < |input|
      invariant 0 <= i <= |input| && |group| < 5
      invariant |output| <= cap
      invariant Run(input[i..], group, output, cap) == Decode(input, cap)
    {
      ghost var rest := input[i..];
      var b := input[i];
      i := i + 1;
      assert rest[1..] == input[i..];
      if IsWs(b) {
        continue;
      }
      if b == 126 && i < |input| && input[i] == 62 {
        i := i - 1;
        break;
      }
      if b == 122 {
        if group != [] {
          return Err(StreamDecode(ZeroGroupInsidePartialGroup));
        }
        if |output| + 4 > cap {
          return Err(LimitExceeded(MaxStreamDecodeBytes));
        }
        output := output + [0, 0, 0, 0];
        continue;
      }
      if !(33 <= b <= 117) {
        return Err(StreamDecode(InvalidAscii85Digit));
      }
      group := group + [b - 33];
      if |group| == 5 {
        var next := AppendAscii85Group(output, group, 4, cap);
        if next.Err? {
          return next;
        }
        output := next.value;
        group := [];
      }
    }
    if group != [] {
      ghost var partial := group;
      var outputBytes := |group| - 1;
      while |group| < 5
        invariant |partial| <= |group| <= 5
        invariant Padded(group) == Padded(partial)
      {
        group := group + [84];
      }
      r := AppendAscii85Group(output, group, outputBytes, cap);
    } else {
      r := Ok(output);
    }
  }

  // ---------------------------------------------------------------------------------------------
  // The encoder of section 7.4.3
  // ---------------------------------------------------------------------------------------------

  /** The 32-bit number of four bytes, missing low bytes counted as zero. */
  function Number(bytes: seq<byte>): (v: nat)
    requires 1 <= |bytes| <= 4
    ensures v < TWO32
  {
    var b: int := bytes[0];
    var c: int := if |bytes| > 1 then bytes[1] else 0;
    var d: int := if |bytes| > 2 then bytes[2] else 0;
    var e: int := if |bytes| > 3 then bytes[3] else 0;
    0x100_0000 * b + 0x1_0000 * c + 256 * d + e
  }

  /** The base-85 number of five digits. */
  function Weighted(d: seq<digit>): nat
    requires |d| == 5
  {
    var a: int, b: int, c: int, e: int, f: int := d[0], d[1], d[2], d[3], d[4];
    52200625 * a + 614125 * b + 7225 * c + 85 * e + f
  }

  function Digits(v: nat): (r: seq<digit>)
    requires v < TWO32
    ensures |r| == 5
    ensures Weighted(r) == v
  {
    var u := v % 52200625;
    var w := u % 614125;
    var x := w % 7225;
    [v / 52200625, u / 614125, w / 7225, x / 85, x % 85]
  }

  function Char(d: digit): (c: byte)
    ensures FIRST <= c <= LAST
  {
    var n: int := d;
    n + 33
  }

  function Chars(digits: seq<digit>): (r: seq<byte>)
    ensures |r| == |digits|
    ensures forall k | 0 <= k < |r| :: r[k] == Char(digits[k])
  {
    if digits == [] then [] else [Char(digits[0])] + Chars(digits[1..])
  }

  /** A full group: five digits, or a single `z` for four zero bytes. */
  function FullGroupText(bytes: seq<byte>): seq<byte>
    requires |bytes| == 4
  {
    if Number(bytes) == 0 then [Z] else Chars(Digits(Number(bytes)))
  }

  /** Four bytes as five digits or a single `z`, a final group of n bytes as its first n+1 digits. */
  function Encode(data: seq<byte>): seq<byte> {
    if data == [] then []
    else if |data| < 4 then Chars(Digits(Number(data))[..|data| + 1])
    else
      FullGroupText(data[..4]) + Encode(data[4..])
  }

  // ---------------------------------------------------------------------------------------------
  // Full and partial groups
  // ---------------------------------------------------------------------------------------------

  lemma GroupValueIsWeighted(d: seq<digit>)
    requires |d| == 5
    ensures GroupValue(d, 0) == if Weighted(d) < TWO32 then Some(Weighted(d)) else None
  {
    var a: nat := d[0];
    var b: nat := a * 85 + d[1];
    var c: nat := b * 85 + d[2];
    var e: nat := c * 85 + d[3];
    assert Weighted(d) == e * 85 + d[4];
    assert d[1..][1..] == d[2..] && d[2..][1..] == d[3..] && d[3..][1..] == d[4..] && d[4..][1..] == [];
    assert GroupValue(d, 0) == GroupValue(d[1..], a);
    assert GroupValue(d[1..], a) == GroupValue(d[2..], b);
    assert GroupValue(d[2..], b) == GroupValue(d[3..], c);
    assert GroupValue(d[3..], c) == GroupValue(d[4..], e);
    if Weighted(d) < TWO32 {
      assert GroupValue(d[4..], e) == GroupValue(d[4..][1..], Weighted(d));
    }
  }

  lemma BigEndianOf(b: byte, c: byte, d: byte, e: byte)
    ensures 0x100_0000 * b as int + 0x1_0000 * c as int + 256 * d as int + e < TWO32
    ensures BigEndian(0x100_0000 * b as int + 0x1_0000 * c as int + 256 * d as int + e) == [b, c, d, e]
  {
    var v: int := 0x100_0000 * b as int + 0x1_0000 * c as int + 256 * d as int + e;
    assert v / 0x100_0000 == b;
    assert v / 0x1_0000 == 256 * b as int + c;
    assert v / 256 == 0x1_0000 * b as int + 256 * c as int + d;
  }

  lemma BigEndianUndoesNumber(bytes: seq<byte>, slack: nat)
    requires 1 <= |bytes| <= 4
    requires |bytes| == 1 ==> slack < 0x100_0000
    requires |bytes| == 2 ==> slack < 0x1_0000
    requires |bytes| == 3 ==> slack < 256
    requires |bytes| == 4 ==> slack == 0
    ensures Number(bytes) + slack < TWO32
    ensures BigEndian(Number(bytes) + slack)[..|bytes|] == bytes
  {
    hide BigEndian;
    var c: byte := if |bytes| > 1 then bytes[1] else slack / 0x1_0000;
    var d: byte := if |bytes| > 2 then bytes[2] else slack / 256 % 256;
    var e: byte := if |bytes| > 3 then bytes[3] else slack % 256;
    BigEndianOf(bytes[0], c, d, e);
    assert Number(bytes) + slack == 0x100_0000 * bytes[0] as int + 0x1_0000 * c as int + 256 * d as int + e;
  }

  lemma PaddedIs(d: seq<digit>)
    requires 2 <= |d| <= 4
    ensures Padded(d) == d + [84, 84, 84][..5 - |d|]
    decreases 5 - |d|
  {
    assert Padded(d) == Padded(d + [84]);
    if |d| < 4 {
      PaddedIs(d + [84]);
    }
  }

  /** The rounding argument: filling a group of n+1 digits up with the largest digit adds less than
      the weight of the lowest of the n bytes, so it neither overflows nor reaches them. */
  lemma PaddingIsHarmless(bytes: seq<byte>)
    requires 1 <= |bytes| <= 3
    ensures var d := Digits(Number(bytes))[..|bytes| + 1];
            && GroupValue(Padded(d), 0).Some?
            && BigEndian(GroupValue(Padded(d), 0).value)[..|bytes|] == bytes
  {
    var v := Number(bytes);
    var full := Digits(v);
    var d := full[..|bytes| + 1];
    var p := Padded(d);
    assert p == d + [84, 84, 84][..4 - |bytes|] by {
      PaddedIs(d);
    }
    GroupValueIsWeighted(p);
    assert Weighted(full) == v;
    var slack := Weighted(p) - v;
    BigEndianUndoesNumber(bytes, slack);
  }

  lemma FullGroup(bytes: seq<byte>)
    requires |bytes| == 4
    ensures GroupValue(Digits(Number(bytes)), 0) == Some(Number(bytes))
    ensures BigEndian(Number(bytes)) == bytes
  {
    GroupValueIsWeighted(Digits(Number(bytes)));
    BigEndianUndoesNumber(bytes, 0);
    assert BigEndian(Number(bytes))[..4] == BigEndian(Number(bytes));
  }

  // ---------------------------------------------------------------------------------------------
  // The round trip
  // ---------------------------------------------------------------------------------------------

  ghost predicate EndOfData(rest: seq<byte>) {
    rest == [] || (|rest| >= 2 && rest[0] == TILDE && rest[1] == GREATER)
  }

  lemma RunReadsDigit(d: digit, rest: seq<byte>, group: seq<digit>, output: seq<byte>, cap: nat)
    requires |group| < 4
    ensures Run([Char(d)] + rest, group, output, cap) == Run(rest, group + [d], output, cap)
  {
    var input := [Char(d)] + rest;
    assert input[0] == Char(d) && input[1..] == rest;
  }

  /** Reading digits that do not complete a group only collects them. */
  lemma {:induction false} RunCollects(d: seq<digit>, rest: seq<byte>, group: seq<digit>, output: seq<byte>, cap: nat)
    requires |group| + |d| < 5
    ensures Run(Chars(d) + rest, group, output, cap) == Run(rest, group + d, output, cap)
    decreases d
  {
    if d == [] {
      assert Chars(d) + rest == rest && group + d == group;
    } else {
      calc {
        Run(Chars(d) + rest, group, output, cap);
      ==  { assert Chars(d) + rest == [Char(d[0])] + (Chars(d[1..]) + rest); }
        Run([Char(d[0])] + (Chars(d[1..]) + rest), group, output, cap);
      ==  { RunReadsDigit(d[0], Chars(d[1..]) + rest, group, output, cap); }
        Run(Chars(d[1..]) + rest, group + [d[0]], output, cap);
      ==  { RunCollects(d[1..], rest, group + [d[0]], output, cap); }
        Run(rest, group + [d[0]] + d[1..], output, cap);
      ==  { assert group + [d[0]] + d[1..] == group + d; }
        Run(rest, group + d, output, cap);
      }
    }
  }

  lemma BigEndianOfZero()
    ensures BigEndian(0) == [0, 0, 0, 0]
  {
  }

  lemma RunFullGroup(bytes: seq<byte>, rest: seq<byte>, output: seq<byte>, cap: nat)
    requires |bytes| == 4 && |output| + 4 <= cap
    ensures Run(FullGroupText(bytes) + rest, [], output, cap) == Run(rest, [], output + bytes, cap)
  {
    hide Number, Digits, GroupValue, BigEndian;
    var v := Number(bytes);
    FullGroup(bytes);
    if v == 0 {
      assert ([Z] + rest)[1..] == rest;
      BigEndianOfZero();
    } else {
      var d := Digits(v);
      var four, last := d[..4], Chars(d)[4..] + rest;
      assert Chars(d) + rest == Chars(four) + last;
      RunCollects(four, last, [], output, cap);
      assert [] + four == four && four + [d[4]] == d;
      assert last[0] == Char(d[4]) && last[1..] == rest;
      assert BigEndian(v)[..4] == BigEndian(v);
    }
  }

  lemma RunPartialGroup(bytes: seq<byte>, rest: seq<byte>, output: seq<byte>, cap: nat)
    returns (group: seq<digit>, written: seq<byte>)
    requires 1 <= |bytes| <= 3 && |output| + |bytes| <= cap
    ensures |group| < 5
    ensures Run(Encode(bytes) + rest, [], output, cap) == Run(rest, group, written, cap)
    ensures Finish(group, written, cap) == Ok(output + bytes)
  {
    hide Number, Digits, GroupValue, BigEndian, Chars, Run, Padded, Weighted;
    group, written := Digits(Number(bytes))[..|bytes| + 1], output;
    RunCollects(group, rest, [], output, cap);
    assert [] + group == group;
    PaddingIsHarmless(bytes);
  }

  /** The encoded text brings the loop to whatever follows it, with the last partial group in hand. */
  lemma {:induction false} RunReachesRest(data: seq<byte>, rest: seq<byte>, output: seq<byte>, cap: nat)
    returns (group: seq<digit>, written: seq<byte>)
    requires |output| + |data| <= cap
    ensures |group| < 5
    ensures Run(Encode(data) + rest, [], output, cap) == Run(rest, group, written, cap)
    ensures Finish(group, written, cap) == Ok(output + data)
    decreases |data|
  {
    hide FullGroupText, Number, Digits, GroupValue, BigEndian, Chars, Run, Padded, Weighted;
    if data == [] {
      assert Encode(data) + rest == rest && output + data == output;
      group, written := [], output;
    } else if |data| < 4 {
      group, written := RunPartialGroup(data, rest, output, cap);
    } else {
      assert Encode(data) + rest == FullGroupText(data[..4]) + (Encode(data[4..]) + rest);
      RunFullGroup(data[..4], Encode(data[4..]) + rest, output, cap);
      group, written := RunReachesRest(data[4..], rest, output + data[..4], cap);
      assert output + data[..4] + data[4..] == output + data;
    }
  }

  /** Skipping white space commutes with the loop. */
  lemma {:induction false} RunSkipsWs(text: seq<byte>, rest: seq<byte>, group: seq<digit>, output: seq<byte>, cap: nat)
    requires |group| < 5
    requires forall k | 0 <= k < |text| :: text[k] != TILDE
    ensures Run(text + rest, group, output, cap) == Run(DropWs(text) + rest, group, output, cap)
    decreases text
  {
    var input := text + rest;
    if text != [] {
      assert input[1..] == text[1..] + rest;
      var b := text[0];
      if IsWs(b) {
        RunSkipsWs(text[1..], rest, group, output, cap);
      } else {
        assert (DropWs(text) + rest)[1..] == DropWs(text[1..]) + rest;
        if b == Z {
          if group == [] && |output| + 4 <= cap {
            RunSkipsWs(text[1..], rest, group, output + [0, 0, 0, 0], cap);
          }
        } else if FIRST <= b <= LAST {
          var longer := group + [b - FIRST];
          if |longer| == 5 {
            var next := AppendGroup(output, longer, 4, cap);
            if next.Ok? {
              RunSkipsWs(text[1..], rest, [], next.value, cap);
            }
          } else {
            RunSkipsWs(text[1..], rest, longer, output, cap);
          }
        }
      }
    }
  }

  lemma {:induction false} EncodedHasNoTilde(data: seq<byte>)
    ensures forall k | 0 <= k < |Encode(data)| :: Encode(data)[k] != TILDE && !IsWs(Encode(data)[k])
    decreases |data|
  {
    if |data| >= 4 {
      EncodedHasNoTilde(data[4..]);
    }
  }

  lemma {:induction false} TildeSurvivesDropWs(text: seq<byte>)
    requires forall k | 0 <= k < |DropWs(text)| :: DropWs(text)[k] != TILDE
    ensures forall k | 0 <= k < |text| :: text[k] != TILDE
  {
    if text != [] {
      var dense := DropWs(text);
      if !IsWs(text[0]) {
        assert dense[0] == text[0] && dense[1..] == DropWs(text[1..]);
      }
      TildeSurvivesDropWs(text[1..]);
    }
  }

  /** Main result: the encoding of any byte string, with any white space added to it, with or
      without the end mark and whatever follows the mark, decodes to the byte string. */
  lemma DecodeUndoesEncode(text: seq<byte>, data: seq<byte>, rest: seq<byte>, cap: nat)
    requires DropWs(text) == Encode(data)
    requires EndOfData(rest) && |data| <= cap
    ensures Decode(text + rest, cap) == Ok(data)
  {
    EncodedHasNoTilde(data);
    TildeSurvivesDropWs(text);
    RunSkipsWs(text, rest, [], [], cap);
    var group, written := RunReachesRest(data, rest, [], cap);
    assert [] + data == data;
  }

  /** White space is skipped everywhere except inside the end mark: a tilde ends the data exactly
      when the greater-than sign is the very next byte. */
  lemma TildeEndsDataIff(text: seq<byte>, data: seq<byte>, rest: seq<byte>, cap: nat)
    requires DropWs(text) == Encode(data) && |data| <= cap
    requires rest != [] && rest[0] == TILDE
    ensures Decode(text + rest, cap) == Ok(data) <==> |rest| >= 2 && rest[1] == GREATER
  {
    EncodedHasNoTilde(data);
    TildeSurvivesDropWs(text);
    RunSkipsWs(text, rest, [], [], cap);
    var group, written := RunReachesRest(data, rest, [], cap);
    assert [] + data == data;
  }
}
