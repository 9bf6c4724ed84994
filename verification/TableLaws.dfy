/** The named bytes, words and numbers of the model against what they stand for. */
module TableLaws {
  import opened Bytes
  import opened Cos
  import opened StandardTables
  import opened CosParsing
  import Ascii85
  import AsciiHex
  import Bits
  import ContentMeaning
  import ContentParsing
  import ContentSyntax
  import CosTokens
  import Encryption
  import Evaluation
  import FileParsing
  import Lzw
  import PasswordKeys
  import Predictors
  import Revision6Keys
  import RuleParsing
  import Source
  import StructureWalk

  lemma CharacterClasses(b: byte)
    ensures IsWs(b) <==> WhiteSpace(b)
    ensures IsDelimiter(b) <==> Delimiter(b)
    ensures ContentParsing.IsRegular(b) <==> Regular(b)
    ensures HexDigit(b) == HexValueOf(b)
    ensures IsDigit(b) <==> Decimals([b])
    ensures Delimiter(b) <==> b as char in "()<>[]{}/%"
  {
    assert [b][0] == b;
    if b as char in "()<>[]{}/%" {
      var k :| 0 <= k < 10 && "()<>[]{}/%"[k] == b as char;
      assert b as char as int == b;
    }
  }

  /** The bytes the parsers look for. */
  lemma Punctuation()
    ensures [LF, CR, HASH, PERCENT, OPEN, CLOSE, PLUS, MINUS, DOT, SLASH] == Ascii("\n\r#%()+-./")
    ensures [LESS, GREATER, LETTER_R, LBRACKET, BACKSLASH, RBRACKET, LETTER_F, LETTER_N, LETTER_T] == Ascii("<>R[\\]fnt")
    ensures [Ascii85.TILDE, Ascii85.GREATER, Ascii85.Z, Ascii85.FIRST, Ascii85.LAST, AsciiHex.EOD] == Ascii("~>z!u>")
    ensures Source.CR == CR && Source.LF == LF
  {
  }

  /** The words the parsers look for. */
  lemma Words()
    ensures TRUE == Ascii("true") && FALSE == Ascii("false") && NULL == Ascii("null")
    ensures DICT_OPEN == Ascii("<<") && DICT_CLOSE == Ascii(">>") && EOF_MARKER == Ascii("%%EOF")
    ensures FileParsing.OBJ == Ascii("obj") && FileParsing.ENDOBJ == Ascii("endobj")
    ensures FileParsing.STREAM == Ascii("stream") && Source.ENDSTREAM == Ascii("endstream")
    ensures FileParsing.XREF == Ascii("xref") && FileParsing.STARTXREF == Ascii("startxref")
    ensures FileParsing.TRAILER == Ascii("trailer") && FileParsing.CRLF == Ascii("\r\n")
    ensures ContentParsing.KEYWORD_R == Ascii("R") && ContentParsing.EI == Ascii("EI") && ContentSyntax.ID == Ascii("ID")
    ensures ContentMeaning.EMC == Ascii("EMC") && ContentMeaning.UNKNOWN == Ascii("Unknown")
    ensures Encryption.AES_SALT == Ascii("sAlT")
  {
  }

  /** Algorithm 2 of section 7.6.4.3 of ISO 32000-1: the padding string. */
  lemma PaddingString()
    ensures PasswordKeys.PASSWORD_PADDING
         == Ascii("(\U{BF}N^Nu\U{8A}Ad\0NV\U{FF}\U{FA}\U{01}\U{08}..\0\U{B6}\U{D0}h>\U{80}/\U{0C}\U{A9}\U{FE}dSiz")
  {
  }

  lemma {:induction false} PowerOfSum(a: nat, b: nat)
    ensures Bits.Pow2(a + b) == Bits.Pow2(a) * Bits.Pow2(b)
  {
    if a > 0 {
      PowerOfSum(a - 1, b);
      assert 2 * (Bits.Pow2(a - 1) * Bits.Pow2(b)) == (2 * Bits.Pow2(a - 1)) * Bits.Pow2(b);
    }
  }

  /** Code numbers and limits. */
  lemma Numbers()
    ensures Lzw.CLEAR == Bits.Pow2(8) && Lzw.EOD == Lzw.CLEAR + 1 && Lzw.FULL == Bits.Pow2(12)
    ensures Ascii85.TWO32 == Bits.Pow2(32) && Predictors.U64 == Bits.Pow2(64)
    ensures Evaluation.MAX_I32 == Bits.Pow2(31) - 1 && Evaluation.MIN_I32 == -Evaluation.MAX_I32 - 1
    ensures Evaluation.EPSILON * (Bits.Pow2(52) as real) == 1.0
    ensures Evaluation.MAX_RULE_INSTRUCTIONS == 512 && Evaluation.MAX_RULE_DEPTH == 32
    ensures RuleParsing.MAX_IDENTIFIER_BYTES == 128 && RuleParsing.MAX_PROFILE_STRING_BYTES == 4096
    ensures RuleParsing.MAX_REGEX_PATTERN_BYTES == 512 && StructureWalk.MAX_ROLE_MAP_STEPS == 32
    ensures PasswordKeys.REVISION_6_HASH_MAX_ROUNDS == 288 && Revision6Keys.REVISION_5_6_PASSWORD_BYTES == 127
  {
    assert Bits.Pow2(4) == 16 && Bits.Pow2(8) == 256 && Bits.Pow2(12) == 4096 && Bits.Pow2(15) == 0x8000;
    hide Bits.Pow2;
    PowerOfSum(8, 8);
    PowerOfSum(15, 16);
    PowerOfSum(16, 16);
    PowerOfSum(32, 32);
    PowerOfSum(4, 16);
    PowerOfSum(20, 32);
  }

  /** Nesting is counted in 32 bits and stays at the last number. */
  lemma OneDeeper(depth: u32)
    ensures Deeper(depth) as int == if depth < 4294967295 then depth + 1 else 4294967295
  {
  }

  lemma Associates(a: nat, b: nat, c: nat, d: nat, e: nat)
    ensures a * b * c * d * e == a * ((b * c) * (d * e))
    ensures a * b * c == (a * b) * c
  {
    assert (a * b * c) * d * e == (a * b * c) * (d * e);
    assert (a * b * c) * (d * e) == (a * (b * c)) * (d * e);
    assert (a * (b * c)) * (d * e) == a * ((b * c) * (d * e));
  }

  lemma TwoTo320()
    ensures TWO_TO_320 == Bits.Pow2(320)
  {
    Numbers();
    hide Bits.Pow2;
    PowerOfSum(64, 64);
    PowerOfSum(128, 128);
    PowerOfSum(64, 256);
    Associates(TWO_TO_64, TWO_TO_64, TWO_TO_64, TWO_TO_64, TWO_TO_64);
  }

  lemma LessOne(p: nat, p640: nat, p960: nat, p970: nat, p1024: nat)
    requires p640 == p * p && p960 == p640 * p && p970 == 0x400 * p960 && p1024 == 0x40_0000_0000_0000 * p970
    ensures 0x3F_FFFF_FFFF_FFFF * (0x400 * p * p * p) == p1024 - p970
  {
    assert 0x400 * p * p * p == 0x400 * p960;
  }

  /** The least number that rounds to infinity: half a unit above the greatest finite float. */
  lemma FiniteLimit()
    ensures FINITE_LIMIT == Bits.Pow2(1024) - Bits.Pow2(970)
  {
    SmallPowers();
    hide Bits.Pow2, TWO_TO_320;
    TwoTo320();
    PowerOfSum(320, 320);
    PowerOfSum(640, 320);
    PowerOfSum(10, 960);
    PowerOfSum(54, 970);
    LessOne(TWO_TO_320, Bits.Pow2(640), Bits.Pow2(960), Bits.Pow2(970), Bits.Pow2(1024));
  }

  lemma SmallPowers()
    ensures Bits.Pow2(10) == 0x400 && Bits.Pow2(54) == 0x40_0000_0000_0000
  {
    assert Bits.Pow2(10) == 0x400 && Bits.Pow2(12) == 0x1000;
    hide Bits.Pow2;
    PowerOfSum(10, 12);
    PowerOfSum(10, 22);
    PowerOfSum(22, 32);
  }

  /** The whole part of a number decides whether it is finite. */
  lemma FiniteIff(whole: seq<byte>)
    requires Decimals(whole)
    ensures AllDigits(whole) && (IsFinite(whole) <==> Positional(whole) < Bits.Pow2(1024) - Bits.Pow2(970))
  {
    assert AllDigits(whole);
    CosTokens.DecimalIsPositional(whole);
    FiniteLimit();
    hide Bits.Pow2, FINITE_LIMIT, Decimal, Positional;
  }
}
