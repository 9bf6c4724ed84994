/** The objects the parser can produce are exactly the ones within the limits. */
module CosLimits {
  import opened Bytes
  import opened Cos
  import opened CosParsing
  import opened CosSyntax
  import opened CosTokens
  import opened CosRoundTrip

  predicate IsRealSpelling(digits: seq<byte>) {
    IsRealBody(digits[SignLength(digits)..])
  }

  /** Nothing in the object exceeds a limit; streams only arise at the top level of a file. */
  predicate Within(o: CosObject, depth: u32, limits: Limits)
    decreases o
  {
    && depth <= limits.maxObjectDepth
    && match o
       case Real(digits) => IsRealSpelling(digits)
       case Name(bytes) => |bytes| <= limits.maxNameBytes
       case String(bytes) => |bytes| <= limits.maxStringBytes
       case Array(items) =>
         |items| <= limits.maxArrayLen && forall k | 0 <= k < |items| :: Within(items[k], Deeper(depth), limits)
       case Dict(entries) =>
         && |entries| <= limits.maxDictEntries
         && forall k | k in entries :: |k| <= limits.maxNameBytes && Within(entries[k], Deeper(depth), limits)
       case Stream(_) => false
       case _ => true
  }

  predicate AllWithin(items: seq<CosObject>, depth: u32, limits: Limits) {
    forall k | 0 <= k < |items| :: Within(items[k], depth, limits)
  }

  predicate EntriesWithin(entries: Dictionary, depth: u32, limits: Limits) {
    forall k | k in entries :: |k| <= limits.maxNameBytes && Within(entries[k], depth, limits)
  }

  // ---------------------------------------------------------------------------------------------
  // What the parser produces is within the limits
  // ---------------------------------------------------------------------------------------------

  lemma RealTokenIsSpelled(s: seq<byte>)
    requires ParseNumberToken(s).Good? && ParseNumberToken(s).value.RealNumber?
    ensures IsRealSpelling(ParseNumberToken(s).value.digits)
  {
    hide SkipSpace, IsRealBody;
    var t := SkipSpace(s);
    var sign := SignLength(t);
    var body := t[sign..][..NumberRun(t[sign..])];
    var digits := ParseNumberToken(s).value.digits;
    assert digits == t[..sign] + body;
    assert body != [] && digits[0] == t[0];
    assert SignLength(digits) == sign && digits[sign..] == body;
  }

  lemma NumberWithin(s: seq<byte>, depth: u32, limits: Limits)
    requires depth <= limits.maxObjectDepth && ParseNumberOrReference(s).Good?
    ensures Within(ParseNumberOrReference(s).value, depth, limits)
  {
    hide ParseNumberToken, ParseReferenceTail, IsRealSpelling;
    if ParseNumberOrReference(s).value.Real? {
      RealTokenIsSpelled(s);
    }
  }

  lemma LeafWithin(t: seq<byte>, depth: u32, limits: Limits)
    requires depth <= limits.maxObjectDepth && t != [] && ParseLeaf(t, limits).Good?
    ensures Within(ParseLeaf(t, limits).value, depth, limits)
  {
    hide ParseNumberOrReference, ParseName, ParseLiteral, ParseHex;
    if ParseLeaf(t, limits) == ParseNumberOrReference(t) {
      NumberWithin(t, depth, limits);
    }
  }

  lemma {:induction false} ParsedIsWithin(s: seq<byte>, depth: u32, limits: Limits)
    requires ParseObject(s, depth, limits).Good?
    ensures Within(ParseObject(s, depth, limits).value, depth, limits)
    decreases |s|, 1
  {
    hide ParseItems, ParseEntries, ParseLeaf, SkipSpace;
    var t := SkipSpace(s);
    if StartsWith(t, DICT_OPEN) {
      EntriesAreWithin(t[2..], depth, map[], limits);
    } else if t[0] == LBRACKET {
      ItemsAreWithin(t[1..], depth, [], limits);
    } else {
      LeafWithin(t, depth, limits);
    }
  }

  lemma {:induction false} ItemsAreWithin(s: seq<byte>, depth: u32, acc: seq<CosObject>, limits: Limits)
    requires |acc| <= limits.maxArrayLen && AllWithin(acc, Deeper(depth), limits)
    requires ParseItems(s, depth, acc, limits).Good?
    ensures |ParseItems(s, depth, acc, limits).value| <= limits.maxArrayLen
    ensures AllWithin(ParseItems(s, depth, acc, limits).value, Deeper(depth), limits)
    decreases |s|, 2
  {
    hide ParseObject, SkipSpace, Within, Deeper;
    var t := SkipSpace(s);
    if !StartsWith(t, [RBRACKET]) {
      var item := ParseObject(t, Deeper(depth), limits);
      ParsedIsWithin(t, Deeper(depth), limits);
      ItemsAreWithin(item.rest, depth, acc + [item.value], limits);
    }
  }

  lemma {:induction false} EntriesAreWithin(s: seq<byte>, depth: u32, acc: Dictionary, limits: Limits)
    requires |acc| <= limits.maxDictEntries && EntriesWithin(acc, Deeper(depth), limits)
    requires ParseEntries(s, depth, acc, limits).Good?
    ensures |ParseEntries(s, depth, acc, limits).value| <= limits.maxDictEntries
    ensures EntriesWithin(ParseEntries(s, depth, acc, limits).value, Deeper(depth), limits)
    decreases |s|, 2
  {
    hide ParseObject, ParseName, SkipSpace, Within, Deeper;
    var t := SkipSpace(s);
    if !StartsWith(t, DICT_CLOSE) {
      var key := ParseName(t, limits);
      var value := ParseObject(key.rest, Deeper(depth), limits);
      ParsedIsWithin(key.rest, Deeper(depth), limits);
      var more := acc[key.value := value.value];
      InsertGrows(acc, key.value, value.value);
      EntriesAreWithin(value.rest, depth, more, limits);
    }
  }

  lemma InsertGrows(m: Dictionary, key: seq<byte>, value: CosObject)
    ensures |m[key := value]| <= |m| + 1
    ensures key !in m ==> |m[key := value]| == |m| + 1
  {
    assert m[key := value].Keys == m.Keys + {key};
  }

  // ---------------------------------------------------------------------------------------------
  // Every object within the limits has a text
  // ---------------------------------------------------------------------------------------------

  function DecimalDigits(n: nat): (digits: seq<byte>)
    ensures digits != [] && AllDigits(digits) && Decimal(digits) == n
  {
    if n < 10 then
      assert Decimal([]) == 0 && [48 + n][..0] == [];
      [48 + n]
    else
      var high := DecimalDigits(n / 10);
      var digits := high + [48 + n % 10];
      assert digits[..|digits| - 1] == high;
      digits
  }

  function HexCode(n: nat): byte
    requires n < 16
  {
    if n < 10 then 48 + n else 65 + n - 10
  }

  lemma PairCodes(b: byte)
    ensures var n: int := b; n / 16 < 16 && HexPair(HexCode(n / 16), HexCode(n % 16)) == Some(b)
  {
    var n: int := b;
    var h, l := n / 16, n % 16;
    assert HexDigit(HexCode(h)) == Some(h) && HexDigit(HexCode(l)) == Some(l);
  }

  lemma {:induction false} SpellName(bytes: seq<byte>) returns (pieces: seq<NamePiece>)
    ensures NameOk(pieces) && NameValue(pieces) == bytes
  {
    if bytes == [] {
      pieces := [];
    } else {
      var more := SpellName(bytes[1..]);
      var n: int := bytes[0];
      PairCodes(bytes[0]);
      pieces := [HexEscape(HexCode(n / 16), HexCode(n % 16))] + more;
      assert pieces[1..] == more;
    }
  }

  lemma {:induction false} SpellString(bytes: seq<byte>) returns (hex: Hex)
    ensures HexOk(hex) && HexValue(hex) == bytes
  {
    if bytes == [] {
      hex := EndHex([]);
    } else {
      var more := SpellString(bytes[1..]);
      var n: int := bytes[0];
      PairCodes(bytes[0]);
      hex := TwoDigits([], HexCode(n / 16), [], HexCode(n % 16), more);
    }
  }

  /** Nothing that could run into a token, nor be taken for a generation, follows. */
  predicate Calm(rest: seq<byte>) {
    rest == [] || rest[0] == PERCENT
  }

  lemma CalmSeparates(rest: seq<byte>)
    requires Calm(rest)
    ensures NumberEnds(rest) && NameEnds(rest) && !OverlongFollows(rest) && !ReferenceFollows(rest)
  {
  }

  /** The tree writes the object, and is accepted wherever nothing disturbing follows. */
  ghost predicate Writes(c: Syntax, o: CosObject, depth: u32, limits: Limits) {
    && Spelled(c) && Value(c) == o
    && forall rest | Calm(rest) :: Separated(c, rest) && Accepted(c, rest, depth, limits)
  }

  const LINE: seq<Blank> := [Comment([], LF)]

  lemma LineIsCalm(rest: seq<byte>)
    ensures GapOk(LINE) && Calm(GapText(LINE, rest))
  {
  }

  lemma WriteInteger(value: i64, depth: u32, limits: Limits) returns (c: Syntax)
    requires depth <= limits.maxObjectDepth
    ensures Writes(c, Integer(value), depth, limits)
  {
    hide OverlongFollows, ReferenceFollows, NumberEnds, NameEnds;
    var v: int := value;
    c := if v < 0 then IntegerToken([MINUS], DecimalDigits(-v)) else IntegerToken([], DecimalDigits(v));
    forall rest | Calm(rest)
      ensures Separated(c, rest) && Accepted(c, rest, depth, limits)
    {
      CalmSeparates(rest);
    }
  }

  lemma SplitAround(s: seq<byte>, k: nat)
    requires k < |s|
    ensures s == s[..k] + [s[k]] + s[k + 1..] && |s[..k] + s[k + 1..]| == |s| - 1
  {
  }

  lemma SplitReal(digits: seq<byte>) returns (sign: seq<byte>, whole: seq<byte>, fraction: seq<byte>)
    requires IsRealSpelling(digits)
    ensures SignOk(sign) && AllDigits(whole) && AllDigits(fraction) && whole + fraction != [] && IsFinite(whole)
    ensures digits == sign + (whole + [DOT] + fraction)
  {
    hide AllDigits, IsFinite;
    var n := SignLength(digits);
    sign := digits[..n];
    assert SignOk(sign) by {
      assert sign == [] || sign == [digits[0]];
    }
    var body := digits[n..];
    assert digits == sign + body;
    var k :| 0 <= k < |body| && body[k] == DOT && AllDigits(body[..k]) && AllDigits(body[k + 1..]) && IsFinite(body[..k]);
    whole, fraction := body[..k], body[k + 1..];
    SplitAround(body, k);
  }

  lemma WriteReal(digits: seq<byte>, depth: u32, limits: Limits) returns (c: Syntax)
    requires depth <= limits.maxObjectDepth && IsRealSpelling(digits)
    ensures Writes(c, Real(digits), depth, limits)
  {
    hide IsRealSpelling, AllDigits, NumberEnds, IsFinite;
    var sign, whole, fraction := SplitReal(digits);
    c := RealToken(sign, whole, fraction);
    forall rest | Calm(rest)
      ensures Separated(c, rest) && Accepted(c, rest, depth, limits)
    {
      CalmSeparates(rest);
    }
  }

  lemma WriteName(bytes: seq<byte>, depth: u32, limits: Limits) returns (c: Syntax)
    requires depth <= limits.maxObjectDepth && |bytes| <= limits.maxNameBytes
    ensures Writes(c, Name(bytes), depth, limits)
  {
    var pieces := SpellName(bytes);
    c := NameToken(pieces);
  }

  lemma WriteString(bytes: seq<byte>, depth: u32, limits: Limits) returns (c: Syntax)
    requires depth <= limits.maxObjectDepth && |bytes| <= limits.maxStringBytes
    ensures Writes(c, String(bytes), depth, limits)
  {
    var hex := SpellString(bytes);
    c := HexString(hex);
  }

  lemma WriteReference(key: ObjectKey, depth: u32, limits: Limits) returns (c: Syntax)
    requires depth <= limits.maxObjectDepth
    ensures Writes(c, Reference(key), depth, limits)
  {
    c := ReferenceToken([], DecimalDigits(key.number), [White(32)], DecimalDigits(key.generation), [32]);
  }

  lemma WriteWord(o: CosObject, depth: u32, limits: Limits) returns (c: Syntax)
    requires depth <= limits.maxObjectDepth && (o.Null? || o.Boolean?)
    ensures Writes(c, o, depth, limits)
  {
    c := if o.Null? then NullWord else BooleanWord(o.flag);
  }

  lemma {:induction false} WriteObject(o: CosObject, depth: u32, limits: Limits) returns (c: Syntax)
    requires Within(o, depth, limits)
    ensures Writes(c, o, depth, limits)
    decreases o
  {
    hide Writes, WritesItems, WritesEntries, IsRealSpelling;
    match o
    case Integer(value) =>
      c := WriteInteger(value, depth, limits);
    case Real(digits) =>
      c := WriteReal(digits, depth, limits);
    case Name(bytes) =>
      c := WriteName(bytes, depth, limits);
    case String(bytes) =>
      c := WriteString(bytes, depth, limits);
    case Reference(key) =>
      c := WriteReference(key, depth, limits);
    case Array(items) =>
      var w := WriteItems(o, items, 0, depth, limits);
      assert items[0..] == items;
      BracketItems(w, items, depth, limits);
      c := ArrayText(w);
    case Dict(entries) =>
      var w := WriteEntries(o, entries, map[], depth, limits);
      BracketEntries(w, entries, depth, limits);
      c := DictText(w);
    case _ =>
      c := WriteWord(o, depth, limits);
  }

  lemma BracketItems(w: Items, items: seq<CosObject>, depth: u32, limits: Limits)
    requires depth <= limits.maxObjectDepth && WritesItems(w, items, depth, 0, limits)
    ensures Writes(ArrayText(w), Array(items), depth, limits)
  {
    hide Calm, ItemsSpelled, ItemsAccepted, ItemsSeparated, ItemsValue;
    var c := ArrayText(w);
    forall rest | Calm(rest)
      ensures Separated(c, rest) && Accepted(c, rest, depth, limits)
    {
      assert ItemsSeparated(w, rest) && ItemsAccepted(w, rest, depth, 0, limits);
    }
  }

  lemma BracketEntries(w: Entries, entries: Dictionary, depth: u32, limits: Limits)
    requires depth <= limits.maxObjectDepth && WritesEntries(w, entries, map[], depth, limits)
    ensures Writes(DictText(w), Dict(entries), depth, limits)
  {
    hide Calm, EntriesSpelled, EntriesAccepted, EntriesSeparated, EntriesValue;
    assert map[] + entries == entries;
    var c := DictText(w);
    forall rest | Calm(rest)
      ensures Separated(c, rest) && Accepted(c, rest, depth, limits)
    {
      assert EntriesSeparated(w, rest) && EntriesAccepted(w, rest, depth, map[], limits);
    }
  }

  ghost predicate WritesItems(w: Items, items: seq<CosObject>, depth: u32, read: nat, limits: Limits) {
    && ItemsSpelled(w) && ItemsValue(w) == items
    && forall rest ::
         Calm(ItemsText(w, rest)) && ItemsSeparated(w, rest) && ItemsAccepted(w, rest, depth, read, limits)
  }

  lemma {:induction false} WriteItems(o: CosObject, items: seq<CosObject>, k: nat, depth: u32, limits: Limits)
    returns (w: Items)
    requires o == Array(items) && k <= |items| <= limits.maxArrayLen && AllWithin(items, Deeper(depth), limits)
    ensures WritesItems(w, items[k..], depth, k, limits)
    decreases o, |items| - k
  {
    hide Calm;
    if k == |items| {
      w := EndItems(LINE);
      forall rest
        ensures Calm(ItemsText(w, rest))
      {
        LineIsCalm([RBRACKET] + rest);
      }
    } else {
      var more := WriteItems(o, items, k + 1, depth, limits);
      var value := WriteObject(items[k], Deeper(depth), limits);
      w := ItemInFront(value, more, items[k], items[k + 1..], depth, k, limits);
      assert [items[k]] + items[k + 1..] == items[k..];
    }
  }

  lemma ItemInFront(c: Syntax, more: Items, o: CosObject, items: seq<CosObject>, depth: u32, read: nat, limits: Limits)
    returns (w: Items)
    requires Writes(c, o, Deeper(depth), limits) && WritesItems(more, items, depth, read + 1, limits)
    requires read + 1 <= limits.maxArrayLen
    ensures WritesItems(w, [o] + items, depth, read, limits)
  {
    hide Calm, Accepted, Separated;
    w := Item(LINE, c, more);
    forall rest
      ensures Calm(ItemsText(w, rest)) && ItemsSeparated(w, rest) && ItemsAccepted(w, rest, depth, read, limits)
    {
      LineIsCalm(Text(c, ItemsText(more, rest)));
      assert Calm(ItemsText(more, rest));
    }
  }

  ghost predicate WritesEntries(w: Entries, entries: Dictionary, acc: Dictionary, depth: u32, limits: Limits) {
    && EntriesSpelled(w) && EntriesValue(w, acc) == acc + entries
    && forall rest ::
         Calm(EntriesText(w, rest)) && EntriesSeparated(w, rest) && EntriesAccepted(w, rest, depth, acc, limits)
  }

  lemma EndWritten(acc: Dictionary, depth: u32, limits: Limits)
    ensures WritesEntries(EndEntries(LINE), map[], acc, depth, limits)
  {
    hide Calm;
    var w := EndEntries(LINE);
    assert acc + map[] == acc;
    LineIsCalm([]);
    forall rest
      ensures Calm(EntriesText(w, rest))
    {
      LineIsCalm(DICT_CLOSE + rest);
    }
  }

  lemma TakeEntry(entries: Dictionary, key: seq<byte>, acc: Dictionary)
    requires key in entries && entries.Keys !! acc.Keys
    ensures var fewer := entries - {key};
            var more := acc[key := entries[key]];
            |fewer| + 1 == |entries| && |more| == |acc| + 1 && fewer.Keys !! more.Keys
  {
    assert entries.Keys == (entries - {key}).Keys + {key};
    InsertGrows(acc, key, entries[key]);
  }

  lemma MoveEntry(entries: Dictionary, key: seq<byte>, acc: Dictionary)
    requires key in entries && entries.Keys !! acc.Keys
    ensures acc[key := entries[key]] + (entries - {key}) == acc + entries
  {
  }

  lemma {:induction false} WriteEntries(
      o: CosObject, entries: Dictionary, acc: Dictionary, depth: u32, limits: Limits) returns (w: Entries)
    requires o.Dict? && entries.Keys <= o.entries.Keys && (forall k | k in entries :: entries[k] == o.entries[k])
    requires entries.Keys !! acc.Keys && |acc| + |entries| <= limits.maxDictEntries
    requires EntriesWithin(entries, Deeper(depth), limits)
    ensures WritesEntries(w, entries, acc, depth, limits)
    decreases o, |entries|
  {
    hide Calm, Within, Deeper, Text, ItemsText, EntriesText, EntriesSeparated, EntriesAccepted;
    if entries == map[] {
      w := EndEntries(LINE);
      EndWritten(acc, depth, limits);
    } else {
      var key :| key in entries;
      var fewer := entries - {key};
      TakeEntry(entries, key, acc);
      MoveEntry(entries, key, acc);
      var more := WriteEntries(o, fewer, acc[key := entries[key]], depth, limits);
      var value := WriteObject(entries[key], Deeper(depth), limits);
      w := EntryInFront(key, value, more, entries[key], fewer, acc, depth, limits);
    }
  }

  lemma EntryInFront(
      key: seq<byte>, c: Syntax, more: Entries, o: CosObject, fewer: Dictionary, acc: Dictionary, depth: u32, limits: Limits)
    returns (w: Entries)
    requires |key| <= limits.maxNameBytes && |acc| + 1 <= limits.maxDictEntries
    requires Writes(c, o, Deeper(depth), limits) && WritesEntries(more, fewer, acc[key := o], depth, limits)
    ensures EntriesSpelled(w) && EntriesValue(w, acc) == acc[key := o] + fewer
    ensures forall rest ::
              Calm(EntriesText(w, rest)) && EntriesSeparated(w, rest) && EntriesAccepted(w, rest, depth, acc, limits)
  {
    hide Calm, Accepted, Separated, NameOk, NameValue, NameEnds;
    var pieces := SpellName(key);
    w := Entry(LINE, pieces, LINE, c, more);
    LineIsCalm([]);
    forall rest
      ensures Calm(EntriesText(w, rest)) && EntriesSeparated(w, rest) && EntriesAccepted(w, rest, depth, acc, limits)
    {
      var value := GapText(LINE, Text(c, EntriesText(more, rest)));
      LineIsCalm(Text(c, EntriesText(more, rest)));
      CalmSeparates(value);
      LineIsCalm([SLASH] + NameText(pieces, value));
      assert Calm(EntriesText(more, rest));
    }
  }

  /** The parser can produce an object exactly when the object is within the limits. */
  lemma ParserProducesIff(o: CosObject, depth: u32, limits: Limits)
    ensures (exists s :: ParseObject(s, depth, limits).Good? && ParseObject(s, depth, limits).value == o)
       <==> Within(o, depth, limits)
  {
    hide ParseObject, Within;
    if s :| ParseObject(s, depth, limits).Good? && ParseObject(s, depth, limits).value == o {
      ParsedIsWithin(s, depth, limits);
    }
    if Within(o, depth, limits) {
      var c := WriteObject(o, depth, limits);
      assert Calm([]);
      ParseUndoesPrintIff([], c, [], depth, limits);
    }
  }
}
