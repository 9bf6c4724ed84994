/** The tables of the standards, written out: the character classes of section 7.2.2 of ISO 32000-1 and the
    digits of decimal and hexadecimal numbers. What a text means is told by these alone. */
module StandardTables {
  import opened Bytes
  import opened Cos

  /** Table 1: null, tab, line feed, form feed, carriage return and space. */
  predicate WhiteSpace(b: byte) {
    b in {0, 9, 10, 12, 13, 32}
  }

  /** Table 2: `(`, `)`, `<`, `>`, `[`, `]`, `{`, `}`, `/` and `%`. */
  predicate Delimiter(b: byte) {
    b in {40, 41, 60, 62, 91, 93, 123, 125, 47, 37}
  }

  predicate Regular(b: byte) {
    !WhiteSpace(b) && !Delimiter(b)
  }

  /** `0` to `9`, then `A` to `F` in either case. */
  function HexValueOf(b: byte): (r: Option<nat>)
    ensures r.Some? ==> r.value < 16
  {
    if 48 <= b < 58 then Some(b - 48)
    else if 65 <= b < 71 then Some(b - 55)
    else if 97 <= b < 103 then Some(b - 87)
    else None
  }

  /** The byte two hexadecimal digits stand for. */
  function ByteOf(high: byte, low: byte): Option<byte> {
    if HexValueOf(high).None? || HexValueOf(low).None? then None
    else Some(16 * HexValueOf(high).value + HexValueOf(low).value)
  }

  /** Table 3: what stands behind a backslash, octal codes and line ends left out. Another character stands
      for itself. */
  function EscapeValue(code: byte): byte {
    match code
    case 110 => 10
    case 114 => 13
    case 116 => 9
    case 98 => 8
    case 102 => 12
    case _ => code
  }

  predicate Decimals(s: seq<byte>) {
    forall k | 0 <= k < |s| :: 48 <= s[k] < 58
  }

  function PowerOfTen(n: nat): nat {
    if n == 0 then 1 else 10 * PowerOfTen(n - 1)
  }

  /** The first digit counts most. */
  function Positional(digits: seq<byte>): int {
    if digits == [] then 0
    else
      var first: int := digits[0];
      (first - 48) * PowerOfTen(|digits| - 1) + Positional(digits[1..])
  }

  /** Bit `k` of a number in two's complement. */
  function BitOf(n: int, k: nat): int
    decreases k
  {
    if k == 0 then n % 2 else BitOf(n / 2, k - 1)
  }

  /** The value of a dictionary entry. */
  function Entry(d: Dictionary, key: string): Option<CosObject>
    requires forall c | c in key :: c as int < 256
  {
    if Ascii(key) in d then Some(d[Ascii(key)]) else None
  }

  /** The name is spelled so. */
  predicate Spells(name: seq<byte>, text: string) {
    |name| == |text| && forall k | 0 <= k < |name| :: name[k] == text[k] as int
  }

  predicate NamedIn(name: seq<byte>, texts: seq<string>) {
    exists k | 0 <= k < |texts| :: Spells(name, texts[k])
  }
}
