/** Operators and image keys against tables 51 and 93 of ISO 32000-1, and what operands and nesting add up to. */
module ContentTables {
  import opened Bytes
  import opened Cos
  import opened StandardTables
  import opened CosParsing
  import opened ContentParsing
  import opened ContentMeaning

  // ---------------------------------------------------------------------------------------------
  // Table 51
  // ---------------------------------------------------------------------------------------------

  const GRAPHICS_STATE: seq<string> := ["w", "J", "j", "M", "d", "ri", "i", "gs", "q", "Q", "cm"]
  const PATH_CONSTRUCTION: seq<string> := ["m", "l", "c", "v", "y", "h", "re"]
  const PATH_PAINTING: seq<string> := ["S", "s", "f", "F", "f*", "B", "B*", "b", "b*", "n", "W", "W*"]
  const TEXT_STATE: seq<string> := ["BT", "ET", "Tc", "Tw", "Tz", "TL", "Tf", "Tr", "Ts", "Td", "TD", "Tm", "T*"]
  const TEXT_SHOWING: seq<string> := ["Tj", "TJ", "'", "\""]
  const COLOR: seq<string> := ["CS", "cs", "SC", "SCN", "sc", "scn", "G", "g", "RG", "rg", "K", "k", "sh"]
  const MARKING: seq<string> := ["MP", "DP", "BMC", "BDC"]
  const COMPATIBILITY: seq<string> := ["BX", "EX"]

  lemma PlainByTable(op: string)
    ensures IsPlain(op)
       <==> op in GRAPHICS_STATE || op in PATH_CONSTRUCTION || op in PATH_PAINTING || op in TEXT_STATE
            || op in COMPATIBILITY
  {
  }

  lemma OthersByTable(op: string)
    ensures IsShow(op) <==> op in TEXT_SHOWING
    ensures IsColor(op) <==> op in COLOR
    ensures IsMarking(op) <==> op in MARKING
  {
  }

  /** The first name among the operands. */
  ghost predicate FirstNameIs(operands: seq<Operand>, name: seq<byte>) {
    exists k | 0 <= k < |operands| ::
      operands[k] == NameOperand(name) && forall j | 0 <= j < k :: !operands[j].NameOperand?
  }

  predicate NoName(operands: seq<Operand>) {
    forall k | 0 <= k < |operands| :: !operands[k].NameOperand?
  }

  lemma ImageApart(op: string)
    requires op == "BI"
    ensures !IsPlain(op) && !IsColor(op) && !IsMarking(op) && !IsShow(op)
  {
  }

  lemma EndApart(op: string)
    requires op == "EMC"
    ensures !IsPlain(op) && !IsColor(op) && !IsMarking(op) && !IsShow(op)
  {
  }

  lemma DoApart(op: string)
    requires op == "Do"
    ensures !IsPlain(op) && !IsColor(op) && !IsMarking(op) && !IsShow(op)
  {
  }

  lemma QuoteApart(op: string)
    requires op == "'" || op == "\""
    ensures !IsPlain(op) && !IsColor(op) && !IsMarking(op)
  {
  }

  lemma ShowApart(op: string)
    requires op == "Tj" || op == "TJ"
    ensures !IsPlain(op) && !IsColor(op) && !IsMarking(op)
  {
  }

  lemma ColorSpaceApart(op: string)
    requires op == "CS" || op == "cs" || op == "sh"
    ensures !IsPlain(op)
  {
  }

  lemma ColorApart(op: string)
    requires op == "SC" || op == "SCN" || op == "sc" || op == "scn"
    ensures !IsPlain(op)
  {
  }

  lemma GrayApart(op: string)
    requires op == "G" || op == "g" || op == "K" || op == "k"
    ensures !IsPlain(op)
  {
  }

  lemma RgbApart(op: string)
    requires op == "RG" || op == "rg"
    ensures !IsPlain(op)
  {
  }

  lemma MarkingApart(op: string)
    requires IsMarking(op)
    ensures !IsPlain(op) && !IsColor(op)
  {
  }

  /** The kinds of operators have nothing in common. */
  lemma KindsApart(op: string)
    ensures op == "BI" || op == "EMC" || op == "Do" || IsShow(op) || IsMarking(op) || IsColor(op) ==> !IsPlain(op)
    ensures op == "BI" || op == "EMC" || op == "Do" || IsShow(op) || IsMarking(op) ==> !IsColor(op)
    ensures op == "BI" || op == "EMC" || op == "Do" || IsShow(op) ==> !IsMarking(op)
    ensures op == "BI" || op == "EMC" || op == "Do" ==> !IsShow(op)
  {
    hide IsPlain;
    if op == "BI" {
      ImageApart(op);
    } else if op == "EMC" {
      EndApart(op);
    } else if op == "Do" {
      DoApart(op);
    } else if op == "Tj" || op == "TJ" {
      ShowApart(op);
    } else if IsShow(op) {
      QuoteApart(op);
    } else if IsMarking(op) {
      MarkingApart(op);
    } else if op == "CS" || op == "cs" || op == "sh" {
      ColorSpaceApart(op);
    } else if op == "RG" || op == "rg" {
      RgbApart(op);
    } else if op == "G" || op == "g" || op == "K" || op == "k" {
      GrayApart(op);
    } else if IsColor(op) {
      ColorApart(op);
    }
  }

  lemma FirstNameFound(operands: seq<Operand>)
    ensures var r := FirstName(operands);
            if r.Some? then FirstNameIs(operands, r.value) else NoName(operands)
  {
  }

  /** What an operator of each kind leaves behind. */
  lemma FactByTable(step: Step)
    ensures var op, operands := OpOf(step), step.operands;
            && (op == "BI" ==> FactOf(step) == InlineImageFact(step.image))
            && (op in TEXT_SHOWING ==> FactOf(step) == TextShowFact(TotalBytes(operands)))
            && (op in MARKING && NoName(operands) ==> FactOf(step) == MarkedContentFact(Ascii("Unknown")))
            && (op in MARKING && !NoName(operands) ==>
                  exists name :: FirstNameIs(operands, name) && FactOf(step) == MarkedContentFact(name))
            && (op == "EMC" ==> FactOf(step) == MarkedContentFact(Ascii("EMC")))
            && (op in COLOR ==> FactOf(step) == ColorFact(op, |operands|, TotalBytes(operands)))
            && (op == "Do" && !NoName(operands) ==>
                  exists name :: FirstNameIs(operands, name) && FactOf(step) == XObjectFact(name))
            && (IsPlain(op) <==> FactOf(step) == PlainFact(op))
  {
    var op := OpOf(step);
    KindsApart(op);
    OthersByTable(op);
    FirstNameFound(step.operands);
    assert UNKNOWN == Ascii("Unknown") && EMC == Ascii("EMC");
    hide FirstName, FirstNameIs, TotalBytes, IsPlain, IsColor, IsMarking, IsShow, Characters;
  }

  /** The operators of no kind are recorded as unknown, with `d0`, `d1`, `ID` and `EI` among them, and `Do`
      when it has no name. */
  lemma UnknownByTable(step: Step)
    ensures var op := OpOf(step);
            FactOf(step).UnknownFact?
            <==> !IsPlain(op) && op !in TEXT_SHOWING && op !in COLOR && op !in MARKING && op != "BI" && op != "EMC"
                 && (op == "Do" ==> NoName(step.operands))
  {
    var op := OpOf(step);
    KindsApart(op);
    OthersByTable(op);
    FirstNameFound(step.operands);
    hide FirstName, FirstNameIs, IsPlain, IsColor, IsMarking, IsShow, Characters;
  }

  lemma Type3IsNotPlain(op: string)
    requires op == "d0" || op == "d1"
    ensures !IsPlain(op)
  {
  }

  lemma Type3IsNoOther(op: string)
    requires op == "d0" || op == "d1"
    ensures !IsColor(op) && !IsMarking(op) && !IsShow(op)
  {
  }

  lemma Type3IsUnknown(step: Step)
    requires OpOf(step) == "d0" || OpOf(step) == "d1"
    ensures FactOf(step).UnknownFact?
  {
    hide Characters, IsPlain, IsColor, IsShow, IsMarking;
    Type3IsNotPlain(OpOf(step));
    Type3IsNoOther(OpOf(step));
  }

  /** The resources named by operators. */
  lemma FamilyByTable(op: string)
    ensures FamilyOf(op) == Some(Font) <==> op == "Tf"
    ensures FamilyOf(op) == Some(ExtGState) <==> op == "gs"
    ensures FamilyOf(op) == Some(ColorSpace) <==> op == "CS" || op == "cs"
    ensures FamilyOf(op) == Some(Shading) <==> op == "sh"
    ensures FamilyOf(op) == Some(XObject) <==> op == "Do"
  {
  }

  // ---------------------------------------------------------------------------------------------
  // Table 93
  // ---------------------------------------------------------------------------------------------

  /** The number of an entry, by its short name or, if that gives none, by its long one. */
  ghost predicate NumberBy(entries: ImageEntries, short: string, long: string, value: Option<nat>)
    requires (forall c | c in short :: c as int < 256) && forall c | c in long :: c as int < 256
  {
    if n: nat :| n < 0x8000_0000_0000_0000 && Holds(entries, short, IntegerOperand(n)) then value == Some(n)
    else if n: nat :| n < 0x8000_0000_0000_0000 && Holds(entries, long, IntegerOperand(n)) then value == Some(n)
    else value == None
  }

  predicate Holds(entries: ImageEntries, key: string, operand: Operand)
    requires forall c | c in key :: c as int < 256
  {
    Ascii(key) in entries && entries[Ascii(key)] == operand
  }

  ghost predicate NameBy(entries: ImageEntries, key: string, value: Option<seq<byte>>)
    requires forall c | c in key :: c as int < 256
  {
    if name :| Holds(entries, key, NameOperand(name)) then value == Some(name) else value == None
  }

  lemma CountIs(entries: ImageEntries, short: string, long: string)
    requires (forall c | c in short :: c as int < 256) && forall c | c in long :: c as int < 256
    ensures NumberBy(entries, short, long, Either(CountAt(entries, short), CountAt(entries, long)))
  {
  }

  lemma NameIs(entries: ImageEntries, key: string)
    requires forall c | c in key :: c as int < 256
    ensures NameBy(entries, key, NameAt(entries, key))
  {
  }

  /** An image is told from its entries by the names of the table, the short one first; both names of the filter
      count. */
  lemma ImageByTable(entries: ImageEntries)
    ensures var image := ImageOf(entries);
            && NumberBy(entries, "W", "Width", image.width)
            && NumberBy(entries, "H", "Height", image.height)
            && NumberBy(entries, "BPC", "BitsPerComponent", image.bitsPerComponent)
            && (exists short, long ::
                  && NameBy(entries, "CS", short) && NameBy(entries, "ColorSpace", long)
                  && image.colorSpace == if short.Some? then short else long)
            && exists short, long ::
                 && NameBy(entries, "F", short) && NameBy(entries, "Filter", long)
                 && image.filters == (if short.Some? then [short.value] else [])
                                     + (if long.Some? then [long.value] else [])
  {
    CountIs(entries, "W", "Width");
    CountIs(entries, "H", "Height");
    CountIs(entries, "BPC", "BitsPerComponent");
    NameIs(entries, "CS");
    NameIs(entries, "ColorSpace");
    NameIs(entries, "F");
    NameIs(entries, "Filter");
    hide NumberBy, NameBy, CountAt, NameAt;
  }

  // ---------------------------------------------------------------------------------------------
  // Sizes and depths
  // ---------------------------------------------------------------------------------------------

  /** A number is written with as many digits as it has places, and a sign when it is negative. */
  lemma {:induction false} DecimalLengthIs(n: nat)
    ensures var length := DecimalLength(n);
            length > 0 && n < PowerOfTen(length) && (n == 0 || PowerOfTen(length - 1) <= n)
    ensures var m: int := n; m > 0 ==> DecimalLength(-m) == 1 + DecimalLength(m)
    decreases n
  {
    if n >= 10 {
      DecimalLengthIs(n / 10);
    } else {
      assert PowerOfTen(0) == 1 && PowerOfTen(1) == 10;
    }
  }

  /** Names, composites and keywords count their bytes, numbers their digits, and everything else was counted when
      it was read. */
  function SizeOf(o: Operand): nat {
    match o
    case NameOperand(s) => |s|
    case CompositeOperand(s) => |s|
    case KeywordOperand(s) => |s|
    case IntegerOperand(n) => DecimalLength(n)
    case BytesOperand(count) => count
  }

  function SizesOf(operands: seq<Operand>): nat {
    if operands == [] then 0 else SizeOf(operands[0]) + SizesOf(operands[1..])
  }

  lemma {:induction false} TotalIs(operands: seq<Operand>)
    ensures TotalBytes(operands) == SizesOf(operands)
    decreases |operands|
  {
    if operands != [] {
      var front, last := operands[..|operands| - 1], operands[|operands| - 1];
      TotalIs(front);
      LastSize(front, last);
      assert operands == front + [last];
    }
  }

  lemma {:induction false} LastSize(front: seq<Operand>, last: Operand)
    ensures SizesOf(front + [last]) == SizesOf(front) + SizeOf(last)
  {
    if front == [] {
      assert [] + [last] == [last] && [last][1..] == [];
    } else {
      assert (front + [last])[1..] == front[1..] + [last];
      LastSize(front[1..], last);
    }
  }

  /** How many operators are called so. */
  function Named(steps: seq<Step>, op: string): nat {
    if steps == [] then 0
    else Named(steps[..|steps| - 1], op) + (if OpOf(steps[|steps| - 1]) == op then 1 else 0)
  }

  /** Never more states restored than saved, and never more saved ones than `max`. */
  ghost predicate Balanced(steps: seq<Step>, max: nat) {
    forall n | 0 <= n <= |steps| :: 0 <= Named(steps[..n], "q") - Named(steps[..n], "Q") <= max
  }

  /** In a balanced stream the depth is the number of states saved and not restored. */
  lemma {:induction false} BalancedDepth(steps: seq<Step>, max: u32)
    requires Balanced(steps, max)
    ensures GraphicsDepth(steps, max) as int == Named(steps, "q") - Named(steps, "Q")
    decreases |steps|
  {
    if steps != [] {
      var front := steps[..|steps| - 1];
      assert Balanced(front, max) by {
        forall n | 0 <= n <= |front|
          ensures 0 <= Named(front[..n], "q") - Named(front[..n], "Q") <= max
        {
          assert front[..n] == steps[..n];
        }
      }
      BalancedDepth(front, max);
      assert steps[..|steps|] == steps;
      assert "q"[0] != "Q"[0];
      hide Characters;
    }
  }
}
