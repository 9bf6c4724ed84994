/** What the file parser takes from dictionaries and from the end of a file. */
module FileTables {
  import opened Bytes
  import opened Cos
  import opened StandardTables
  import opened FileParsing

  /** Lengths and offsets are integers from zero on. */
  function CountOf(d: Dictionary, key: string): Option<int>
    requires forall c | c in key :: c as int < 256
  {
    match Entry(d, key)
    case Some(Integer(n)) => Some(n)
    case _ => None
  }

  /** A negative length counts as none. */
  lemma DeclaredLengthIs(d: Dictionary)
    ensures var n := CountOf(d, "Length");
            DeclaredLength(d) == if n.Some? && n.value >= 0 then Some(n.value as nat) else None
  {
  }

  /** A negative offset is refused; without an integer there is none. */
  lemma OffsetIs(d: Dictionary, key: string)
    requires forall c | c in key :: c as int < 256
    ensures var n := CountOf(d, key);
            OffsetOf(d, key)
            == if n.None? then Ok(None) else if n.value < 0 then Err(Malformed) else Ok(Some(n.value as nat))
  {
  }

  /** `Prev` names an earlier section and `XRefStm` a hybrid one, in this order; either may be missing, and a
      negative one refuses the trailer. */
  lemma ChainFactsAre(section: nat, d: Dictionary)
    ensures var prev, hybrid := CountOf(d, "Prev"), CountOf(d, "XRefStm");
            ChainFacts(section, d)
            == if (prev.Some? && prev.value < 0) || (hybrid.Some? && hybrid.value < 0) then Err(Malformed)
               else
                 Ok((if prev.Some? then [PrevChain(section, prev.value as nat)] else [])
                    + (if hybrid.Some? then [HybridReference(section, hybrid.value as nat)] else []))
  {
    OffsetIs(d, "Prev");
    OffsetIs(d, "XRefStm");
    hide OffsetOf, CountOf;
  }

  /** The white space at the end, all of it. */
  lemma {:induction false} TrailingWhiteIs(s: seq<byte>)
    ensures var end := |s| - TrailingWhite(s);
            (forall k | end <= k < |s| :: WhiteSpace(s[k])) && (end > 0 ==> !WhiteSpace(s[end - 1]))
    decreases |s|
  {
    if s != [] && WhiteSpace(s[|s| - 1]) {
      TrailingWhiteIs(s[..|s| - 1]);
    }
  }

  /** Data behind the end-of-file marker are counted without the white space at their end. */
  lemma PostEofIs(s: seq<byte>, data: seq<byte>, white: seq<byte>)
    requires s == data + white && (forall k | 0 <= k < |white| :: WhiteSpace(white[k]))
    requires data == [] || !WhiteSpace(data[|data| - 1])
    ensures PostEofFacts(s) == if data == [] then [] else [PostEofData(|data|)]
  {
    TrailingWhiteIs(s);
    assert data != [] ==> s[|data| - 1] == data[|data| - 1];
    assert forall k | |data| <= k < |s| :: s[k] == white[k - |data|];
  }
}
