/** What a literal string means by section 7.3.4.2 of ISO 32000-1, and when the parser agrees. */
module LiteralStrings {
  import opened Bytes
  import opened CosParsing
  import opened CosSyntax
  import opened CosTokens
  import opened StandardTables

  predicate IsOctal(b: byte) {
    48 <= b <= 55
  }

  /** The octal digits at the front, three at most. */
  function OctalRun(s: seq<byte>): (n: nat)
    ensures n <= 3 && n <= |s| && forall k | 0 <= k < n :: IsOctal(s[k])
  {
    if s == [] || !IsOctal(s[0]) then 0
    else if |s| == 1 || !IsOctal(s[1]) then 1
    else if |s| == 2 || !IsOctal(s[2]) then 2
    else 3
  }

  function OctalValue(digits: seq<byte>): nat
    requires forall k | 0 <= k < |digits| :: IsOctal(digits[k])
  {
    if digits == [] then 0
    else
      assert IsOctal(digits[|digits| - 1]);
      var last: int := digits[|digits| - 1];
      8 * OctalValue(digits[..|digits| - 1]) + last - 48
  }

  /** The standard: octal codes, high-order overflow ignored; a backslash before an end of line joins
      lines; an end of line means one line feed. */
  function IsoMeaning(s: seq<byte>): seq<byte>
    decreases |s|
  {
    if s == [] then []
    else if s[0] == BACKSLASH then
      if |s| == 1 then []
      else if OctalRun(s[1..]) > 0 then
        var n := OctalRun(s[1..]);
        [OctalValue(s[1..][..n]) % 256] + IsoMeaning(s[1 + n..])
      else if s[1] == CR && |s| > 2 && s[2] == LF then IsoMeaning(s[3..])
      else if s[1] == CR || s[1] == LF then IsoMeaning(s[2..])
      else [EscapeValue(s[1])] + IsoMeaning(s[2..])
    else if s[0] == CR then [LF] + IsoMeaning(if |s| > 1 && s[1] == LF then s[2..] else s[1..])
    else [s[0]] + IsoMeaning(s[1..])
  }

  /** The parser: one byte for each escape and for each other byte. */
  function CodeMeaning(s: seq<byte>): seq<byte>
    decreases |s|
  {
    if s == [] then []
    else if s[0] == BACKSLASH then if |s| == 1 then [] else [Unescape(s[1])] + CodeMeaning(s[2..])
    else [s[0]] + CodeMeaning(s[1..])
  }

  /** No octal escape, no joined lines and no carriage return. */
  predicate OnlyKnownEscapes(s: seq<byte>)
    decreases |s|
  {
    if s == [] then true
    else if s[0] == BACKSLASH then
      |s| == 1 || (!IsOctal(s[1]) && s[1] != CR && s[1] != LF && OnlyKnownEscapes(s[2..]))
    else s[0] != CR && OnlyKnownEscapes(s[1..])
  }

  lemma {:induction false} CodeOfDigits(s: seq<byte>, n: nat)
    requires n <= |s| && forall k | 0 <= k < n :: IsOctal(s[k])
    ensures |CodeMeaning(s)| == n + |CodeMeaning(s[n..])|
  {
    if n > 0 {
      assert IsOctal(s[0]);
      CodeOfDigits(s[1..], n - 1);
      assert s[1..][n - 1..] == s[n..];
    }
  }

  /** Where the standard reads an octal code of `n` digits, the parser keeps `n` bytes. */
  lemma OctalEscapeCode(s: seq<byte>)
    requires |s| > 1 && s[0] == BACKSLASH && IsOctal(s[1])
    ensures var n := OctalRun(s[1..]);
            n > 0 && |CodeMeaning(s)| == n + |CodeMeaning(s[1 + n..])|
  {
    var n := OctalRun(s[1..]);
    assert s[1..][0] == s[1];
    assert forall k | 0 <= k < n - 1 :: s[2..][k] == s[1..][k + 1];
    CodeOfDigits(s[2..], n - 1);
    assert s[2..][n - 1..] == s[1 + n..];
  }

  lemma {:induction false} IsoIsNoLonger(s: seq<byte>)
    ensures |IsoMeaning(s)| <= |CodeMeaning(s)|
    decreases |s|
  {
    if s != [] {
      if s[0] == BACKSLASH && |s| > 1 {
        assert s[1..][0] == s[1];
        if IsOctal(s[1]) {
          OctalEscapeCode(s);
          IsoIsNoLonger(s[1 + OctalRun(s[1..])..]);
        } else if s[1] == CR && |s| > 2 && s[2] == LF {
          IsoIsNoLonger(s[3..]);
          assert s[2..][1..] == s[3..];
        } else {
          IsoIsNoLonger(s[2..]);
        }
      } else if s[0] == CR && |s| > 1 && s[1] == LF {
        IsoIsNoLonger(s[2..]);
        assert s[1..][1..] == s[2..];
      } else if s[0] != BACKSLASH {
        IsoIsNoLonger(s[1..]);
      }
    }
  }

  lemma OctalEscapeIso(s: seq<byte>)
    requires |s| > 1 && s[0] == BACKSLASH && IsOctal(s[1])
    ensures var n := OctalRun(s[1..]);
            n > 0 && IsoMeaning(s) == [OctalValue(s[1..][..n]) % 256] + IsoMeaning(s[1 + n..])
  {
    assert s[1..][0] == s[1];
  }

  lemma OneOctalDigit(b: byte)
    requires IsOctal(b)
    ensures OctalValue([b]) < 8
  {
    assert OctalValue([]) == 0 && [b][..0] == [];
  }

  lemma OctalEscapeDiffers(s: seq<byte>)
    requires |s| > 1 && s[0] == BACKSLASH && IsOctal(s[1])
    ensures CodeMeaning(s) != IsoMeaning(s)
  {
    hide IsoMeaning, OctalValue;
    var n := OctalRun(s[1..]);
    OctalEscapeIso(s);
    OctalEscapeCode(s);
    IsoIsNoLonger(s[1 + n..]);
    if n == 1 {
      assert s[1..][..n] == [s[1]];
      OneOctalDigit(s[1]);
      assert CodeMeaning(s)[0] == s[1];
    }
  }

  lemma JoinedLinesDiffer(s: seq<byte>)
    requires |s| > 1 && s[0] == BACKSLASH && (s[1] == CR || s[1] == LF)
    ensures CodeMeaning(s) != IsoMeaning(s)
  {
    assert s[1..][0] == s[1] && OctalRun(s[1..]) == 0;
    if s[1] == CR && |s| > 2 && s[2] == LF {
      IsoIsNoLonger(s[3..]);
      assert s[2..][1..] == s[3..];
    } else {
      IsoIsNoLonger(s[2..]);
    }
  }

  /** The parser's reading is the standard's exactly when nothing but known escapes occurs. */
  lemma {:induction false} CodeMeetsIsoIff(s: seq<byte>)
    ensures CodeMeaning(s) == IsoMeaning(s) <==> OnlyKnownEscapes(s)
    decreases |s|
  {
    if s != [] {
      if s[0] == BACKSLASH {
        if |s| > 1 {
          assert s[1..][0] == s[1];
          if IsOctal(s[1]) {
            OctalEscapeDiffers(s);
          } else if s[1] == CR || s[1] == LF {
            JoinedLinesDiffer(s);
          } else {
            CodeMeetsIsoIff(s[2..]);
            SameHead(Unescape(s[1]), CodeMeaning(s[2..]), IsoMeaning(s[2..]));
          }
        }
      } else if s[0] == CR {
        assert CodeMeaning(s)[0] == CR && IsoMeaning(s)[0] == LF;
      } else {
        CodeMeetsIsoIff(s[1..]);
        SameHead(s[0], CodeMeaning(s[1..]), IsoMeaning(s[1..]));
      }
    }
  }

  lemma SameHead(b: byte, x: seq<byte>, y: seq<byte>)
    ensures [b] + x == [b] + y <==> x == y
  {
    assert ([b] + x)[1..] == x && ([b] + y)[1..] == y;
  }

  lemma EscapeMeans(code: byte, s: seq<byte>)
    ensures CodeMeaning([BACKSLASH, code] + s) == [EscapeValue(code)] + CodeMeaning(s)
  {
    assert ([BACKSLASH, code] + s)[2..] == s;
  }

  lemma RawMeans(b: byte, s: seq<byte>)
    requires b != BACKSLASH
    ensures CodeMeaning([b] + s) == [b] + CodeMeaning(s)
  {
    assert ([b] + s)[1..] == s;
  }

  lemma {:induction false} MeaningOfBody(body: Literal, rest: seq<byte>)
    requires LiteralOk(body)
    ensures CodeMeaning(LiteralText(body, rest)) == LiteralValue(body) + CodeMeaning(rest)
  {
    hide CodeMeaning, EscapeValue;
    match body
    case EndLiteral =>
      assert [] + CodeMeaning(rest) == CodeMeaning(rest);
    case Raw(b, next) =>
      MeaningOfBody(next, rest);
      RawMeans(b, LiteralText(next, rest));
    case Escaped(code, next) =>
      MeaningOfBody(next, rest);
      EscapeMeans(code, LiteralText(next, rest));
    case Group(inner, next) =>
      var after := LiteralText(next, rest);
      MeaningOfBody(next, rest);
      MeaningOfBody(inner, [CLOSE] + after);
      RawMeans(OPEN, LiteralText(inner, [CLOSE] + after));
      RawMeans(CLOSE, after);
  }

  /** A literal string is parsed to what the standard says it means exactly when it holds no octal
      escape, no joined lines and no carriage return. */
  lemma LiteralMeetsIsoIff(body: Literal, rest: seq<byte>, limits: Limits)
    requires LiteralOk(body) && LiteralAccepted(body, 1, 0, limits)
    ensures ParseLiteral([OPEN] + LiteralText(body, [CLOSE] + rest), limits)
         == Good(IsoMeaning(LiteralText(body, [])), rest)
       <==> OnlyKnownEscapes(LiteralText(body, []))
  {
    hide ParseLiteral;
    LiteralStringParses(body, rest, limits);
    MeaningOfBody(body, []);
    assert LiteralValue(body) + [] == LiteralValue(body);
    CodeMeetsIsoIff(LiteralText(body, []));
  }
}
