/** The LZW stream decoder, the encoder of section 7.4.4 of ISO 32000-1, and the proof that the
    first undoes the second bit for bit. */
module Lzw {
  import opened Arithmetic
  import opened Bytes
  import opened Bits

  const CLEAR := 256
  const EOD := 257
  const FULL := 4096

  function InitialEntry(code: nat): seq<byte>
    requires code < 258
  {
    if code < 256 then [code] else []
  }

  function InitialDictionary(): (r: seq<seq<byte>>)
    ensures |r| == 258
    ensures forall k | 0 <= k < 258 :: r[k] == InitialEntry(k)
  {
    seq(258, k requires 0 <= k < 258 => InitialEntry(k))
  }

  /** The table of the decoder, built entry by entry as the decoder does on every clear code. */
  method BuildInitialDictionary() returns (dictionary: seq<seq<byte>>)
    ensures dictionary == InitialDictionary()
  {
    dictionary := [];
    var b: int := 0;
    while b < 256
      invariant 0 <= b <= 256 && |dictionary| == b
      invariant forall k | 0 <= k < b :: dictionary[k] == [k]
    {
      dictionary := dictionary + [[b]];
      b := b + 1;
    }
    dictionary := dictionary + [[]] + [[]];
  }

  // ---------------------------------------------------------------------------------------------
  // What the decoder does with one code
  // ---------------------------------------------------------------------------------------------

  /** The variables of the decoding loop. */
  datatype State = State(
    dictionary: seq<seq<byte>>,
    codeBits: nat,
    nextCode: nat,
    previous: Option<seq<byte>>,
    output: seq<byte>)

  datatype Step = Continue(state: State) | Stop | Fail(error: ParseError)

  function Fresh(output: seq<byte>): State {
    State(InitialDictionary(), 9, 258, None, output)
  }

  function Early(earlyChange: byte): bit {
    if earlyChange == 0 then 0 else 1
  }

  /** The string a code stands for, or why it stands for none. */
  function Lookup(s: State, code: nat): Result<seq<byte>> {
    if code < |s.dictionary| then Ok(s.dictionary[code])
    else if code != s.nextCode then Err(StreamDecode(InvalidLzwCode))
    else if s.previous == None then Err(StreamDecode(LzwMissingPreviousEntry))
    else if s.previous.value == [] then Err(StreamDecode(LzwEmptyPreviousEntry))
    else Ok(s.previous.value + [s.previous.value[0]])
  }

  /** The table after `entry` has followed the previous string. */
  function Learn(s: State, entry: seq<byte>, earlyChange: byte): State
    requires s.previous.Some? && entry != []
  {
    if |s.dictionary| >= FULL then s
    else
      var next := s.nextCode + 1;
      var threshold := Pow2(s.codeBits) - Early(earlyChange);
      s.(dictionary := s.dictionary + [s.previous.value + [entry[0]]],
         nextCode := next,
         codeBits := if next >= threshold && s.codeBits < 12 then s.codeBits + 1 else s.codeBits)
  }

  function Advance(s: State, code: nat, earlyChange: byte, cap: nat): Step {
    if code == CLEAR then Continue(Fresh(s.output))
    else if code == EOD then Stop
    else
      match Lookup(s, code)
      case Err(e) => Fail(e)
      case Ok(entry) =>
        match ExtendLimited(s.output, entry, cap)
        case Err(e) => Fail(e)
        case Ok(output) =>
          var grown := s.(output := output);
          if s.previous == None then Continue(grown.(previous := Some(entry)))
          else if entry == [] then Fail(StreamDecode(LzwEmptyEntry))
          else Continue(Learn(grown, entry, earlyChange).(previous := Some(entry)))
  }

  /** The whole decoding loop over the bits not read yet. */
  function Run(bits: seq<bit>, s: State, earlyChange: byte, cap: nat): Result<seq<byte>>
    decreases |bits|
  {
    if |bits| < s.codeBits || s.codeBits == 0 then Ok(s.output)
    else
      match Advance(s, Value(bits[..s.codeBits]), earlyChange, cap)
      case Stop => Ok(s.output)
      case Fail(e) => Err(e)
      case Continue(s') => Run(bits[s.codeBits..], s', earlyChange, cap)
  }

  function Decode(input: seq<byte>, earlyChange: byte, cap: nat): Result<seq<byte>> {
    Run(BitsOf(input), Fresh([]), earlyChange, cap)
  }

  // ---------------------------------------------------------------------------------------------
  // The decoder
  // ---------------------------------------------------------------------------------------------

  /** The code width that goes with `nextCode` once it is about to be assigned, by the value of `EarlyChange`. */
  function WidthAt(nextCode: nat, earlyChange: byte): (w: nat)
    ensures 9 <= w <= 12
  {
    if earlyChange == 0 then
      if nextCode >= 2048 then 12 else if nextCode >= 1024 then 11 else if nextCode >= 512 then 10 else 9
    else
      if nextCode >= 2047 then 12 else if nextCode >= 1023 then 11 else if nextCode >= 511 then 10 else 9
  }

  /** What every step keeps: the table, the next code and the code width move together, and only
      the two reserved codes stand for an empty string. */
  ghost predicate Valid(s: State, earlyChange: byte) {
    && 258 <= |s.dictionary| <= FULL
    && s.nextCode == |s.dictionary|
    && s.codeBits == WidthAt(s.nextCode, earlyChange)
    && (forall k | 0 <= k < 258 :: s.dictionary[k] == InitialEntry(k))
    && (forall k | 258 <= k < |s.dictionary| :: s.dictionary[k] != [])
    && (s.previous.Some? ==> s.previous.value != [])
  }

  method DecodeLzw(input: seq<byte>, earlyChange: byte, cap: nat) returns (r: Result<seq<byte>>)
    ensures r == Decode(input, earlyChange, cap)
    ensures r.Ok? ==> |r.value| <= cap
    ensures r != Err(StreamDecode(LzwEmptyPreviousEntry)) && r != Err(StreamDecode(LzwEmptyEntry))
  {
    hide Run, Valid, WidthAt, Value, Pow2, BitsOf, InitialDictionary, MsbBitReader.Remaining;
    var reader := new MsbBitReader(input);
    var dictionary := BuildInitialDictionary();
    var codeBits: byte := 9;
    var nextCode := 258;
    var previous: Option<seq<byte>> := None;
    var output: seq<byte> := [];
    FreshIsValid(output, earlyChange);
    while true
      invariant fresh(reader) && reader.Valid()
      invariant 9 <= codeBits <= 12
      invariant Valid(State(dictionary, codeBits, nextCode, previous, output), earlyChange)
      invariant |output| <= cap
      invariant Run(reader.Remaining(), State(dictionary, codeBits, nextCode, previous, output), earlyChange, cap)
             == Decode(input, earlyChange, cap)
      decreases |reader.Remaining()|
    {
      ghost var s := State(dictionary, codeBits, nextCode, previous, output);
      ghost var bits := reader.Remaining();
      RunOnce(bits, s, earlyChange, cap);
      var word := reader.ReadBits(codeBits);
      if word == None {
        return Ok(output);
      }
      var code := word.value;
      CodeFitsSixteenBits(bits[..codeBits]);
      assert code == Value(bits[..codeBits]);
      if code == 256 {
        dictionary := BuildInitialDictionary();
        codeBits := 9;
        nextCode := 258;
        previous := None;
        FreshIsValid(output, earlyChange);
      } else if code == 257 {
        return Ok(output);
      } else {
        AdvanceKeepsValid(s, code, earlyChange, cap);
        var entry;
        if code < |dictionary| {
          entry := dictionary[code];
        } else if code == nextCode {
          if previous == None {
            return Err(StreamDecode(LzwMissingPreviousEntry));
          }
          if previous.value == [] {
            return Err(StreamDecode(LzwEmptyPreviousEntry));
          }
          entry := previous.value + [previous.value[0]];
        } else {
          return Err(StreamDecode(InvalidLzwCode));
        }
        assert Lookup(s, code) == Ok(entry);
        if |output| + |entry| > cap {
          return Err(LimitExceeded(MaxStreamDecodeBytes));
        }
        output := output + entry;
        assert ExtendLimited(s.output, entry, cap) == Ok(output);
        if previous.Some? {
          if entry == [] {
            return Err(StreamDecode(LzwEmptyEntry));
          }
          if |dictionary| < 4096 {
            dictionary := dictionary + [previous.value + [entry[0]]];
            nextCode := nextCode + 1;
            var threshold := Pow2(codeBits) - Early(earlyChange);
            if nextCode >= threshold && codeBits < 12 {
              codeBits := codeBits + 1;
            }
          }
        }
        previous := Some(entry);
        assert Advance(s, code, earlyChange, cap)
            == Continue(State(dictionary, codeBits, nextCode, previous, output));
        WidthsInRange(State(dictionary, codeBits, nextCode, previous, output), earlyChange);
      }
    }
  }

  /** One iteration of the loop. */
  lemma RunOnce(bits: seq<bit>, s: State, earlyChange: byte, cap: nat)
    requires s.codeBits > 0
    ensures |bits| < s.codeBits ==> Run(bits, s, earlyChange, cap) == Ok(s.output)
    ensures |bits| >= s.codeBits ==>
              var step := Advance(s, Value(bits[..s.codeBits]), earlyChange, cap);
              Run(bits, s, earlyChange, cap) ==
              if step.Stop? then Ok(s.output)
              else if step.Fail? then Err(step.error)
              else Run(bits[s.codeBits..], step.state, earlyChange, cap)
  {
  }

  lemma WidthsInRange(s: State, earlyChange: byte)
    requires Valid(s, earlyChange)
    ensures 9 <= s.codeBits <= 12
  {
  }

  lemma CodeFitsSixteenBits(bits: seq<bit>)
    requires 9 <= |bits| <= 12
    ensures Value(bits) < 4096 && Value(bits) % 0x1_0000 == Value(bits)
  {
    assert Pow2(8) == 256;
    assert Pow2(9) == 512 && Pow2(10) == 1024 && Pow2(11) == 2048 && Pow2(12) == 4096;
  }

  // ---------------------------------------------------------------------------------------------
  // Invariants over every input
  // ---------------------------------------------------------------------------------------------

  lemma FreshIsValid(output: seq<byte>, earlyChange: byte)
    ensures Valid(Fresh(output), earlyChange)
  {
  }

  /** No code, valid or not, takes the decoder out of step, past the cap, or into one of the two
      empty-entry errors. */
  lemma AdvanceKeepsValid(s: State, code: nat, earlyChange: byte, cap: nat)
    requires Valid(s, earlyChange) && code < 4096 && |s.output| <= cap
    ensures var t := Advance(s, code, earlyChange, cap);
            && t != Fail(StreamDecode(LzwEmptyPreviousEntry))
            && t != Fail(StreamDecode(LzwEmptyEntry))
            && (t.Continue? ==>
                  && Valid(t.state, earlyChange)
                  && s.output <= t.state.output
                  && |t.state.output| <= cap)
  {
    assert Pow2(8) == 256;
    assert Pow2(9) == 512 && Pow2(10) == 1024 && Pow2(11) == 2048 && Pow2(12) == 4096;
  }

  /** Where the decoder stands after a run of codes; nothing once it has stopped or failed. */
  function After(codes: seq<nat>, s: State, earlyChange: byte, cap: nat): Option<State>
    decreases codes
  {
    if codes == [] then Some(s)
    else
      match Advance(s, codes[0], earlyChange, cap)
      case Continue(s') => After(codes[1..], s', earlyChange, cap)
      case _ => None
  }

  /** The output position of the last clear code in a run. */
  function ClearedAt(codes: seq<nat>, s: State, base: nat, earlyChange: byte, cap: nat): nat
    decreases codes
  {
    if codes == [] then base
    else
      match Advance(s, codes[0], earlyChange, cap)
      case Continue(s') =>
        ClearedAt(codes[1..], s', if codes[0] == CLEAR then |s'.output| else base, earlyChange, cap)
      case _ => base
  }

  ghost predicate PieceOf(piece: seq<byte>, text: seq<byte>, base: nat) {
    exists p: nat :: base <= p && OccursAt(text, piece, p)
  }

  /** Everything learned is a contiguous piece of the output since `base`, and the previous string
      is its end. */
  ghost predicate LearnedFromOutput(s: State, base: nat) {
    && base <= |s.output|
    && (forall k | 258 <= k < |s.dictionary| :: PieceOf(s.dictionary[k], s.output, base))
    && (s.previous.Some? ==>
          && base + |s.previous.value| <= |s.output|
          && s.output[|s.output| - |s.previous.value|..] == s.previous.value)
  }

  lemma PieceOfLonger(piece: seq<byte>, text: seq<byte>, more: seq<byte>, base: nat)
    requires PieceOf(piece, text, base)
    ensures PieceOf(piece, text + more, base)
  {
    var p: nat :| base <= p && OccursAt(text, piece, p);
    assert (text + more)[p..p + |piece|] == text[p..p + |piece|];
    assert OccursAt(text + more, piece, p);
  }

  lemma AdvanceLearnsFromOutput(s: State, code: nat, base: nat, earlyChange: byte, cap: nat)
    requires Valid(s, earlyChange) && code < 4096 && LearnedFromOutput(s, base)
    requires code != CLEAR && Advance(s, code, earlyChange, cap).Continue?
    ensures LearnedFromOutput(Advance(s, code, earlyChange, cap).state, base)
  {
    var t := Advance(s, code, earlyChange, cap).state;
    var entry := Lookup(s, code).value;
    assert t.output == s.output + entry;
    forall k | 258 <= k < |s.dictionary|
      ensures PieceOf(s.dictionary[k], t.output, base)
    {
      PieceOfLonger(s.dictionary[k], s.output, entry, base);
    }
    if s.previous.Some? {
      var previous := s.previous.value;
      var learned := previous + [entry[0]];
      var p := |s.output| - |previous|;
      assert t.output[p..p + |learned|] == learned by {
        assert s.output[p..] == previous;
        assert t.output[p..p + |learned|] == s.output[p..] + entry[..1];
      }
      assert OccursAt(t.output, learned, p);
    }
  }

  /** The decoder's invariants hold after every run of twelve-bit codes, whatever the codes. */
  lemma {:induction false} EveryRunKeepsInvariants(
      codes: seq<nat>, s: State, base: nat, earlyChange: byte, cap: nat)
    requires Valid(s, earlyChange) && LearnedFromOutput(s, base) && |s.output| <= cap
    requires forall k | 0 <= k < |codes| :: codes[k] < 4096
    ensures var t := After(codes, s, earlyChange, cap);
            t.Some? ==>
              && Valid(t.value, earlyChange)
              && |t.value.output| <= cap
              && LearnedFromOutput(t.value, ClearedAt(codes, s, base, earlyChange, cap))
    decreases codes
  {
    if codes != [] && Advance(s, codes[0], earlyChange, cap).Continue? {
      var t := Advance(s, codes[0], earlyChange, cap).state;
      AdvanceKeepsValid(s, codes[0], earlyChange, cap);
      if codes[0] == CLEAR {
        EveryRunKeepsInvariants(codes[1..], t, |t.output|, earlyChange, cap);
      } else {
        AdvanceLearnsFromOutput(s, codes[0], base, earlyChange, cap);
        EveryRunKeepsInvariants(codes[1..], t, base, earlyChange, cap);
      }
    }
  }

  // ---------------------------------------------------------------------------------------------
  // The encoder of section 7.4.4
  // ---------------------------------------------------------------------------------------------

  /** The encoder's own table, and the first code it has not reserved yet. */
  datatype Encoder = Encoder(table: seq<seq<byte>>, next: nat)

  function NewEncoder(): Encoder {
    Encoder(InitialDictionary(), 258)
  }

  /** After emitting the code of `emitted` with `rest` still to come: the string just found
      followed by the next byte becomes the entry of the first unused code. */
  function Reserve(e: Encoder, emitted: seq<byte>, rest: seq<byte>): Encoder {
    if |e.table| >= FULL then e
    else if rest == [] then e.(next := e.next + 1)
    else Encoder(e.table + [emitted + [rest[0]]], e.next + 1)
  }

  /** The code streams a conforming encoder may emit for `data`: at every point any table entry
      that the data starts with, a clear code whenever it likes, and at the very end an optional
      end-of-data code. Matches need not be longest ones. */
  ghost predicate Conforming(codes: seq<nat>, e: Encoder, data: seq<byte>)
    decreases codes
  {
    if codes == [] then data == []
    else if codes[0] == CLEAR then Conforming(codes[1..], NewEncoder(), data)
    else if codes[0] == EOD then data == [] && |codes| == 1
    else
      && codes[0] < |e.table|
      && e.table[codes[0]] <= data
      && var entry := e.table[codes[0]];
         var rest := data[|entry|..];
         Conforming(codes[1..], Reserve(e, entry, rest), rest)
  }

  /** The width of the encoder's next code. With `EarlyChange` 0 the first code of ten bits is the one after entry
      512 has been created, so that 511 is in use, and so on for 1024 and 2048; otherwise one entry sooner. */
  function EncoderWidth(e: Encoder, earlyChange: byte): (w: nat)
    requires e.next >= 258
    ensures 9 <= w <= 12
  {
    var created := e.next - 1;
    if earlyChange == 0 then
      if created >= 2048 then 12 else if created >= 1024 then 11 else if created >= 512 then 10 else 9
    else
      if created >= 2047 then 12 else if created >= 1023 then 11 else if created >= 511 then 10 else 9
  }

  /** The bits of a conforming code stream. */
  ghost function Emit(codes: seq<nat>, e: Encoder, data: seq<byte>, earlyChange: byte): seq<bit>
    requires Conforming(codes, e, data) && e.next >= 258
    decreases codes
  {
    if codes == [] then []
    else
      Spell(codes[0], EncoderWidth(e, earlyChange)) +
      if codes[0] == CLEAR then Emit(codes[1..], NewEncoder(), data, earlyChange)
      else if codes[0] == EOD then []
      else
        var entry := e.table[codes[0]];
        var rest := data[|entry|..];
        Emit(codes[1..], Reserve(e, entry, rest), rest, earlyChange)
  }

  /** How the decoder trails the encoder: it is one entry behind, and completes that entry with
      the next byte of the data; with a full table it has caught up. */
  ghost predicate InStep(s: State, e: Encoder, data: seq<byte>) {
    && 258 <= e.next <= FULL
    && |e.table| <= e.next
    && (forall k | 0 <= k < |e.table| :: k == CLEAR || k == EOD || e.table[k] != [])
    && if s.previous == None then e == NewEncoder() && s == Fresh(s.output)
       else if data == [] then e.next == |s.dictionary| + 1 || e.next == |s.dictionary| == FULL
       else
         && e.next == |e.table|
         && (if |e.table| == |s.dictionary| + 1 then
               e.table == s.dictionary + [s.previous.value + [data[0]]]
             else e.table == s.dictionary && |e.table| == FULL)
  }

  ghost predicate EndsWithEod(codes: seq<nat>) {
    codes != [] && codes[|codes| - 1] == EOD
  }

  lemma WidthsAgree(s: State, e: Encoder, data: seq<byte>, earlyChange: byte)
    requires Valid(s, earlyChange) && InStep(s, e, data)
    ensures EncoderWidth(e, earlyChange) == s.codeBits
  {
  }

  lemma CodeFitsWidth(code: nat, e: Encoder, earlyChange: byte)
    requires e.next >= 258 && code < e.next && e.next <= FULL
    ensures code < Pow2(EncoderWidth(e, earlyChange))
  {
    assert Pow2(8) == 256;
    assert Pow2(9) == 512 && Pow2(10) == 1024 && Pow2(11) == 2048 && Pow2(12) == 4096;
  }

  /** One data code: the decoder writes the string the encoder had in mind and stays in step,
      also when the code is the very entry the decoder is about to complete. */
  lemma DataCodeInStep(s: State, e: Encoder, code: nat, data: seq<byte>, earlyChange: byte, cap: nat)
    requires Valid(s, earlyChange) && InStep(s, e, data)
    requires code != CLEAR && code != EOD && code < |e.table| && e.table[code] <= data && data != []
    requires |s.output| + |data| <= cap
    ensures var entry := e.table[code];
            var rest := data[|entry|..];
            && entry != []
            && var t := Advance(s, code, earlyChange, cap);
            && t.Continue?
            && t.state.output == s.output + entry
            && InStep(t.state, Reserve(e, entry, rest), rest)
            && Valid(t.state, earlyChange)
  {
    var entry := e.table[code];
    var rest := data[|entry|..];
    if code < |s.dictionary| {
      assert entry == s.dictionary[code];
    } else {
      assert code == |s.dictionary| && entry == s.previous.value + [data[0]];
      assert entry[0] == s.previous.value[0];
    }
    assert Lookup(s, code) == Ok(entry);
    assert entry != [];
    assert entry[0] == data[0];
    AdvanceKeepsValid(s, code, earlyChange, cap);
  }

  /** Reading one spelled code is one step of the decoder. */
  lemma RunReadsCode(code: nat, more: seq<bit>, s: State, earlyChange: byte, cap: nat)
    requires s.codeBits > 0 && code < Pow2(s.codeBits)
    ensures var step := Advance(s, code, earlyChange, cap);
            Run(Spell(code, s.codeBits) + more, s, earlyChange, cap) ==
            if step.Stop? then Ok(s.output)
            else if step.Fail? then Err(step.error)
            else Run(more, step.state, earlyChange, cap)
  {
    var bits := Spell(code, s.codeBits) + more;
    ValueOfSpell(code, s.codeBits);
    assert bits[..s.codeBits] == Spell(code, s.codeBits) && bits[s.codeBits..] == more;
  }

  lemma EmitFirst(codes: seq<nat>, e: Encoder, data: seq<byte>, earlyChange: byte, tail: seq<bit>)
    requires Conforming(codes, e, data) && e.next >= 258 && codes != []
    ensures var width := EncoderWidth(e, earlyChange);
            Emit(codes, e, data, earlyChange) + tail ==
            Spell(codes[0], width) + (
              if codes[0] == CLEAR then Emit(codes[1..], NewEncoder(), data, earlyChange) + tail
              else if codes[0] == EOD then tail
              else
                var rest := data[|e.table[codes[0]]|..];
                Emit(codes[1..], Reserve(e, e.table[codes[0]], rest), rest, earlyChange) + tail)
  {
  }

  /** The round trip from any pair of states in step. */
  lemma {:induction false} RunUndoesEmit(
      codes: seq<nat>, e: Encoder, data: seq<byte>, s: State, tail: seq<bit>, earlyChange: byte, cap: nat)
    requires Valid(s, earlyChange) && InStep(s, e, data) && Conforming(codes, e, data)
    requires |s.output| + |data| <= cap
    requires EndsWithEod(codes) || |tail| < 9
    ensures Run(Emit(codes, e, data, earlyChange) + tail, s, earlyChange, cap) == Ok(s.output + data)
    decreases |codes|, 1
  {
    hide Pow2, EncoderWidth, Learn, Lookup, Spell, ExtendLimited;
    if codes == [] {
      assert Emit(codes, e, data, earlyChange) + tail == tail;
      assert s.output + data == s.output;
    } else {
      EmitFirst(codes, e, data, earlyChange, tail);
      assert EncoderWidth(e, earlyChange) == s.codeBits && codes[0] < Pow2(s.codeBits) by {
        WidthsAgree(s, e, data, earlyChange);
        CodeFitsWidth(codes[0], e, earlyChange);
      }
      if codes[0] == EOD {
        assert s.output + data == s.output;
        RunReadsCode(EOD, tail, s, earlyChange, cap);
      } else if codes[0] == CLEAR {
        FreshIsValid(s.output, earlyChange);
        RunUndoesEmit(codes[1..], NewEncoder(), data, Fresh(s.output), tail, earlyChange, cap);
        RunReadsCode(CLEAR, Emit(codes[1..], NewEncoder(), data, earlyChange) + tail, s, earlyChange, cap);
      } else {
        RunUndoesDataCode(codes, e, data, s, tail, earlyChange, cap);
      }
    }
  }

  lemma {:induction false} RunUndoesDataCode(
      codes: seq<nat>, e: Encoder, data: seq<byte>, s: State, tail: seq<bit>, earlyChange: byte, cap: nat)
    requires Valid(s, earlyChange) && InStep(s, e, data) && Conforming(codes, e, data)
    requires |s.output| + |data| <= cap
    requires EndsWithEod(codes) || |tail| < 9
    requires codes != [] && codes[0] != CLEAR && codes[0] != EOD && codes[0] < Pow2(s.codeBits)
    ensures var rest := data[|e.table[codes[0]]|..];
            Run(Spell(codes[0], s.codeBits)
                + (Emit(codes[1..], Reserve(e, e.table[codes[0]], rest), rest, earlyChange) + tail),
                s, earlyChange, cap) == Ok(s.output + data)
    decreases |codes|, 0
  {
    hide Run, Emit, Pow2, Reserve, EncoderWidth, Learn, Advance, Valid, Spell;
    var code := codes[0];
    var entry := e.table[code];
    var rest := data[|entry|..];
    DataCodeInStep(s, e, code, data, earlyChange, cap);
    var e', t := Reserve(e, entry, rest), Advance(s, code, earlyChange, cap).state;
    RunUndoesEmit(codes[1..], e', rest, t, tail, earlyChange, cap);
    WidthsInRange(s, earlyChange);
    assert s.output + entry + rest == s.output + data;
    RunReadsCode(code, Emit(codes[1..], e', rest, earlyChange) + tail, s, earlyChange, cap);
  }

  /** Main result: whatever conforming stream an encoder emits for `data`, packed into bytes and,
      after an end-of-data code, followed by anything at all, decodes to exactly `data`. */
  lemma DecodeUndoesEncode(codes: seq<nat>, data: seq<byte>, trailing: seq<byte>, earlyChange: byte, cap: nat)
    requires Conforming(codes, NewEncoder(), data)
    requires EndsWithEod(codes) || trailing == []
    requires |data| <= cap
    ensures Decode(Pack(Emit(codes, NewEncoder(), data, earlyChange)) + trailing, earlyChange, cap) == Ok(data)
  {
    var bits := Emit(codes, NewEncoder(), data, earlyChange);
    var tail := UnpackPack(bits, trailing);
    FreshIsValid([], earlyChange);
    RunUndoesEmit(codes, NewEncoder(), data, Fresh([]), tail, earlyChange, cap);
    assert [] + data == data;
  }

  // ---------------------------------------------------------------------------------------------
  // A longest-match encoder
  // ---------------------------------------------------------------------------------------------

  /** The code of the longest entry among the first `n` that `data` starts with. */
  function LongestMatch(table: seq<seq<byte>>, n: nat, data: seq<byte>): (code: nat)
    requires 258 <= n <= |table| && data != []
    requires forall k | 0 <= k < 258 :: table[k] == InitialEntry(k)
    ensures code < n && code != CLEAR && code != EOD
    ensures table[code] <= data && table[code] != []
    ensures forall k | 0 <= k < n && table[k] <= data :: |table[k]| <= |table[code]|
  {
    if n == 258 then
      var code: nat := data[0];
      assert table[code] == InitialEntry(code) == [data[0]];
      assert data[..1] == [data[0]];
      assert forall k | 0 <= k < 258 :: |InitialEntry(k)| <= 1;
      code
    else
      var best := LongestMatch(table, n - 1, data);
      if table[n - 1] <= data && |table[n - 1]| > |table[best]| then n - 1 else best
  }

  /** Longest matches, a clear code whenever the table is full, end-of-data last. */
  function Compress(e: Encoder, data: seq<byte>): seq<nat>
    requires |e.table| >= 258
    requires forall k | 0 <= k < 258 :: e.table[k] == InitialEntry(k)
    decreases |data|, if |e.table| >= FULL then 1 else 0
  {
    if data == [] then [EOD]
    else if |e.table| >= FULL then [CLEAR] + Compress(NewEncoder(), data)
    else
      var code := LongestMatch(e.table, |e.table|, data);
      var rest := data[|e.table[code]|..];
      [code] + Compress(Reserve(e, e.table[code], rest), rest)
  }

  lemma {:induction false} CompressConforms(e: Encoder, data: seq<byte>)
    requires |e.table| >= 258
    requires forall k | 0 <= k < 258 :: e.table[k] == InitialEntry(k)
    ensures Conforming(Compress(e, data), e, data) && EndsWithEod(Compress(e, data))
    decreases |data|, if |e.table| >= FULL then 1 else 0
  {
    if data != [] {
      var codes := Compress(e, data);
      if |e.table| >= FULL {
        CompressConforms(NewEncoder(), data);
        assert codes[1..] == Compress(NewEncoder(), data);
      } else {
        var code := LongestMatch(e.table, |e.table|, data);
        var rest := data[|e.table[code]|..];
        CompressConforms(Reserve(e, e.table[code], rest), rest);
        assert codes[1..] == Compress(Reserve(e, e.table[code], rest), rest);
      }
    }
  }

  /** Every byte string has a conforming stream, so the round trip is about every byte string. */
  lemma EveryByteStringRoundTrips(data: seq<byte>, trailing: seq<byte>, earlyChange: byte, cap: nat)
    returns (codes: seq<nat>)
    requires |data| <= cap
    ensures Conforming(codes, NewEncoder(), data) && EndsWithEod(codes)
    ensures Decode(Pack(Emit(codes, NewEncoder(), data, earlyChange)) + trailing, earlyChange, cap) == Ok(data)
  {
    codes := Compress(NewEncoder(), data);
    CompressConforms(NewEncoder(), data);
    DecodeUndoesEncode(codes, data, trailing, earlyChange, cap);
  }

  // ---------------------------------------------------------------------------------------------
  // The end-of-data code of an encoder that reserves nothing after the last byte
  // ---------------------------------------------------------------------------------------------

  /** Decoding only ever adds to the output. */
  lemma {:induction false} RunOnlyAppends(bits: seq<bit>, s: State, earlyChange: byte, cap: nat)
    ensures var r := Run(bits, s, earlyChange, cap);
            r.Ok? ==> s.output <= r.value
    decreases |bits|
  {
    if |bits| >= s.codeBits > 0 {
      var t := Advance(s, Value(bits[..s.codeBits]), earlyChange, cap);
      if t.Continue? {
        RunOnlyAppends(bits[s.codeBits..], t.state, earlyChange, cap);
      }
    }
  }

  /** The last data code brings the decoder to the next width, but no entry was created after it.
      An end-of-data code still written in the old width is understood only when nothing follows
      it, not even a filler bit. */
  lemma NarrowEodAtWidthChange(s: State, tail: seq<bit>, earlyChange: byte, cap: nat)
    requires Valid(s, earlyChange) && s.previous.Some?
    requires s.codeBits == WidthAt(s.nextCode - 1, earlyChange) + 1
    ensures Run(Spell(EOD, s.codeBits - 1) + tail, s, earlyChange, cap) == Ok(s.output) <==> tail == []
  {
    var narrow := Spell(EOD, s.codeBits - 1);
    var bits := narrow + tail;
    if tail != [] {
      assert Pow2(8) == 256 && Pow2(9) == 512;
      ValueOfSpell(EOD, s.codeBits - 1);
      var word := bits[..s.codeBits];
      assert word[..s.codeBits - 1] == narrow;
      var code := Value(word);
      assert code == 2 * EOD + tail[0];
      var t := Advance(s, code, earlyChange, cap);
      if t.Continue? {
        assert |t.state.output| > |s.output|;
        RunOnlyAppends(bits[s.codeBits..], t.state, earlyChange, cap);
      }
    }
  }
}
