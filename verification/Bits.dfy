/** Bits packed most significant bit first, and the cursor that reads them back. */
module Bits {
  import opened Arithmetic
  import opened Bytes

  type bit = b: int | 0 <= b < 2

  function Pow2(n: nat): (r: nat)
    ensures r > 0
  {
    if n == 0 then 1 else 2 * Pow2(n - 1)
  }

  /** Bit `k` of a byte string, counting from the high bit of the first byte. */
  function BitAt(input: seq<byte>, k: nat): bit
    requires k < 8 * |input|
  {
    (input[k / 8] / Pow2(7 - k % 8)) % 2
  }

  function BitsOf(input: seq<byte>): (bits: seq<bit>)
    ensures |bits| == 8 * |input|
    ensures forall k | 0 <= k < |bits| :: bits[k] == BitAt(input, k)
  {
    seq(8 * |input|, k requires 0 <= k < 8 * |input| => BitAt(input, k))
  }

  /** The number a string of bits spells, high bit first. */
  function Value(bits: seq<bit>): (v: nat)
    ensures v < Pow2(|bits|)
  {
    if bits == [] then 0 else 2 * Value(bits[..|bits| - 1]) + bits[|bits| - 1]
  }

  /** `code` spelled in exactly `width` bits. */
  function Spell(code: nat, width: nat): (bits: seq<bit>)
    ensures |bits| == width
  {
    if width == 0 then [] else Spell(code / 2, width - 1) + [code % 2]
  }

  lemma {:induction false} ValueOfSpell(code: nat, width: nat)
    requires code < Pow2(width)
    ensures Value(Spell(code, width)) == code
  {
    if width != 0 {
      var front := Spell(code / 2, width - 1);
      ValueOfSpell(code / 2, width - 1);
      assert Spell(code, width)[..width - 1] == front;
    }
  }

  /** The packer: whole bytes high bit first, the last one filled up with zero bits. */
  function Pack(bits: seq<bit>): (r: seq<byte>)
    ensures |bits| <= 8 * |r| < |bits| + 8
    decreases |bits|
  {
    if bits == [] then []
    else if |bits| < 8 then [ByteValue(bits + seq(8 - |bits|, _ => 0))]
    else [ByteValue(bits[..8])] + Pack(bits[8..])
  }

  function ByteValue(bits: seq<bit>): byte
    requires |bits| == 8
  {
    assert Pow2(4) == 16 && Pow2(8) == 256;
    Value(bits)
  }

  lemma HalveBoth(a: nat, l: bit, p: nat)
    requires p > 0
    ensures (2 * a + l) / (2 * p) == a / p
  {
    var q, r := a / p, a % p;
    assert a == p * q + r;
    assert 2 * a + l == (2 * p) * q + (2 * r + l);
    DivIs(2 * a + l, 2 * p, q, 2 * r + l);
  }

  /** Bit `j` of the number a bit string spells is that bit. */
  lemma {:induction false} BitOfValue(bits: seq<bit>, j: nat)
    requires j < |bits|
    ensures (Value(bits) / Pow2(|bits| - 1 - j)) % 2 == bits[j]
  {
    var front, last := bits[..|bits| - 1], bits[|bits| - 1];
    var v := Value(front);
    assert Value(bits) == 2 * v + last;
    hide Value;
    if j < |bits| - 1 {
      var p := Pow2(|bits| - 2 - j);
      BitOfValue(front, j);
      assert Pow2(|bits| - 1 - j) == 2 * p;
      hide Pow2;
      HalveBoth(v, last, p);
    } else {
      assert Pow2(0) == 1;
      DivIs(2 * v + last, 2, v, last);
    }
  }

  /** Reading back what was packed, bit by bit. */
  lemma {:induction false} PackedBitAt(bits: seq<bit>, k: nat)
    requires k < 8 * |Pack(bits)|
    ensures BitAt(Pack(bits), k) == if k < |bits| then bits[k] else 0
    decreases |bits|
  {
    if |bits| < 8 {
      BitOfValue(bits + seq(8 - |bits|, _ => 0), k);
    } else if k < 8 {
      BitOfValue(bits[..8], k);
    } else {
      PackedBitAt(bits[8..], k - 8);
      assert Pack(bits)[k / 8] == Pack(bits[8..])[(k - 8) / 8];
      assert k % 8 == (k - 8) % 8;
    }
  }

  /** Unpacking is packing undone: what was packed comes back first, and at most
      seven filler bits stand between it and the bytes that follow. */
  lemma UnpackPack(bits: seq<bit>, trailing: seq<byte>) returns (tail: seq<bit>)
    ensures BitsOf(Pack(bits) + trailing) == bits + tail
    ensures trailing == [] ==> |tail| < 8
    ensures |tail| == 8 * |Pack(bits)| - |bits| + 8 * |trailing|
  {
    var packed := Pack(bits);
    var all := BitsOf(packed + trailing);
    tail := all[|bits|..];
    forall k | 0 <= k < |bits|
      ensures all[k] == bits[k]
    {
      PackedBitAt(bits, k);
      assert (packed + trailing)[k / 8] == packed[k / 8];
    }
    assert all[..|bits|] == bits;
  }

  /** The cursor of the LZW decoder. */
  class MsbBitReader {
    const input: seq<byte>
    var bitPos: nat

    ghost predicate Valid()
      reads this
    {
      bitPos <= 8 * |input|
    }

    /** The bits not read yet. */
    ghost function Remaining(): (r: seq<bit>)
      requires Valid()
      reads this
      ensures |r| == 8 * |input| - bitPos
    {
      BitsOf(input)[bitPos..]
    }

    constructor (input: seq<byte>)
      ensures this.input == input && bitPos == 0 && Valid()
      ensures Remaining() == BitsOf(input)
    {
      this.input := input;
      bitPos := 0;
    }

    /** Takes the next `bits` bits as a 16-bit number, or nothing at all when too few are left. */
    method ReadBits(bits: byte) returns (r: Option<nat>)
      requires Valid()
      modifies this
      ensures Valid()
      ensures |old(Remaining())| < bits ==> r == None && Remaining() == old(Remaining())
      ensures |old(Remaining())| >= bits ==>
                && r == Some(Value(old(Remaining())[..bits]) % 0x1_0000)
                && Remaining() == old(Remaining())[bits..]
    {
      hide Pow2, Value, BitAt;
      ghost var before := Remaining();
      ghost var start := bitPos;
      NoBits();
      var remainingBits := |input| * 8 - bitPos;
      if remainingBits < bits {
        return None;
      }
      var value := 0;
      var done := 0;
      while done < bits
        invariant 0 <= done <= bits
        invariant bitPos == start + done
        invariant 0 <= value < 0x1_0000
        invariant value == Value(before[..done]) % 0x1_0000
      {
        var byteIndex := bitPos / 8;
        var bitIndex := 7 - bitPos % 8;
        var b := input[byteIndex];
        var bit: bit := (b / Pow2(bitIndex)) % 2;
        NextBit(input, start, done);
        ShiftInBit(Value(before[..done]), value, bit);
        value := (value * 2) % 0x1_0000 + bit;
        bitPos := bitPos + 1;
        done := done + 1;
      }
      return Some(value);
    }
  }

  lemma NoBits()
    ensures Value([]) == 0
  {
  }

  /** The next bit of what remains, and the value with it. */
  lemma NextBit(input: seq<byte>, start: nat, done: nat)
    requires start + done < 8 * |input|
    ensures var before := BitsOf(input)[start..];
            var i := start + done;
            var bit := (input[i / 8] / Pow2(7 - i % 8)) % 2;
            before[done] == bit && Value(before[..done + 1]) == 2 * Value(before[..done]) + bit
  {
    var before := BitsOf(input)[start..];
    assert before[..done + 1][..done] == before[..done];
  }

  lemma ShiftInBit(full: nat, low: nat, b: bit)
    requires low == full % 0x1_0000
    ensures (2 * full + b) % 0x1_0000 == (low * 2) % 0x1_0000 + b
    ensures (low * 2) % 0x1_0000 + b < 0x1_0000
  {
    var q := full / 0x1_0000;
    if low < 0x8000 {
      DivIs(2 * full + b, 0x1_0000, 2 * q, 2 * low + b);
    } else {
      DivIs(low * 2, 0x1_0000, 1, low * 2 - 0x1_0000);
      DivIs(2 * full + b, 0x1_0000, 2 * q + 1, 2 * low - 0x1_0000 + b);
    }
  }
}
