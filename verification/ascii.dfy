/** The US-ASCII encoding of encodings/ascii.rs: one byte per character, the
    ASCII ctype table for codes below 128, the ASCII case fold, and no
    multi-byte code ranges or property names. */
module Ascii {
  import opened Wrappers
  import opened Oniguruma
  import opened Regenc

  /** `mbc_enc_len`: every character is one byte, whatever the input. */
  function MbcEncLen(p: seq<Byte>): (n: nat) {
    1
  }

  /** `mbc_to_code`: the first byte. */
  function MbcToCode(p: seq<Byte>): (code: CodePoint)
    requires |p| >= 1
  {
    SingleByteMbcToCode(p)
  }

  /** `code_to_mbclen`. */
  function CodeToMbclen(code: CodePoint): (r: int) {
    SingleByteCodeToMbclen(code)
  }

  /** `code_to_mbc`: the low byte, one byte written. */
  function CodeToMbc(code: CodePoint): (bytes: seq<Byte>) {
    SingleByteCodeToMbc(code)
  }

  /** The single-byte codec: each byte is one character whose code is the
      byte; codes below 256 take one byte and come back from it; larger codes
      are rejected by `code_to_mbclen`, and `code_to_mbc` keeps their low
      byte. */
  lemma AsciiCodec(code: CodePoint, p: seq<Byte>)
    requires |p| >= 1
    ensures MbcEncLen(p) == 1 && MbcToCode(p) == p[0]
    ensures CodeToMbclen(code) == 1 <==> code < 256
    ensures CodeToMbclen(code) != 1 ==> CodeToMbclen(code) == ERR_INVALID_CODE_POINT_VALUE
    ensures code < 256 ==> MbcToCode(CodeToMbc(code)) == code
    ensures CodeToMbc(code) == [code % 256]
  {
    SingleByteRoundTrip(code, p);
  }

  /** `is_code_ctype`: false from code 128 on and for a ctype above
      ONIGENC_MAX_STD_CTYPE, the ASCII ctype table as written otherwise. */
  predicate IsCodeCtype(code: CodePoint, ctype: nat) {
    if code < 128 then (if ctype > MAX_STD_CTYPE then false else IsAsciiCodeCtypeAsWritten(code, ctype))
    else false
  }

  /** Away from backspace the table as written and the corrected one agree;
      at backspace the written entry adds the space and blank types. */
  lemma BackspaceOnlyDifference(code: CodePoint, ctype: nat)
    requires code < 128 && ctype <= MAX_STD_CTYPE
    ensures code != 8 ==> (IsAsciiCodeCtypeAsWritten(code, ctype) <==> IsAsciiCodeCtype(code, ctype))
    ensures code == 8 ==> (IsAsciiCodeCtypeAsWritten(code, ctype) <==>
                           IsAsciiCodeCtype(code, ctype) || ctype == CTYPE_SPACE || ctype == CTYPE_BLANK)
  {
    if code == 8 {
      Pow2Values();
    }
  }

  /** The classes ASCII reports: none outside 0..127 or above the standard
      ctypes, and inside them the POSIX classes of the character, except that
      backspace is also reported as a space and a blank character. */
  lemma {:induction false} AsciiIsCodeCtypeSpec(code: CodePoint, ctype: nat)
    ensures code >= 128 || ctype > MAX_STD_CTYPE ==> !IsCodeCtype(code, ctype)
    ensures code < 128 && ctype <= MAX_STD_CTYPE ==> (IsCodeCtype(code, ctype) <==> IsAsciiCodeCtypeAsWritten(code, ctype))
    ensures IsCodeCtype(code, CTYPE_DIGIT) <==> IsAsciiDigit(code)
    ensures IsCodeCtype(code, CTYPE_ALPHA) <==> (IsAsciiUpper(code) || IsAsciiLower(code))
    ensures IsCodeCtype(code, CTYPE_SPACE) <==> (8 <= code <= 13 || code == 32)
    ensures IsCodeCtype(code, CTYPE_BLANK) <==> (code == 8 || code == 9 || code == 32)
    ensures IsCodeCtype(code, CTYPE_CNTRL) <==> (code < 32 || code == 127)
    ensures IsCodeCtype(code, CTYPE_ASCII) <==> code < 128
  {
    if code < 128 {
      AsciiCtypeLetterClasses(code);
      AsciiCtypeOtherClasses(code);
      BackspaceOnlyDifference(code, CTYPE_DIGIT);
      BackspaceOnlyDifference(code, CTYPE_ALPHA);
      BackspaceOnlyDifference(code, CTYPE_SPACE);
      BackspaceOnlyDifference(code, CTYPE_BLANK);
      BackspaceOnlyDifference(code, CTYPE_CNTRL);
      BackspaceOnlyDifference(code, CTYPE_ASCII);
    }
  }

  /** `property_name_to_ctype`: the minimum lookup, which knows no name. */
  function PropertyNameToCtype(p: seq<Byte>): (r: int) {
    ERR_INVALID_CHAR_PROPERTY_NAME
  }

  /** `get_ctype_code_range`: ASCII has no multi-byte ranges. */
  function CtypeCodeRange(ctype: nat): (r: Option<seq<CodePoint>>) {
    None
  }

  /** `left_adjust_char_head`: every byte is a character head. */
  function LeftAdjustCharHead(start: nat, s: nat, data: seq<Byte>): (r: nat) {
    s
  }

  /** `is_valid_mbc_string`: every byte string is valid. */
  predicate IsValidMbcString(s: seq<Byte>) { true }

  /** `mbc_case_fold`: lower-cases one byte. */
  function MbcCaseFold(source: seq<Byte>, pp: nat): (r: FoldStep)
    requires pp < |source|
  {
    AsciiMbcCaseFold(source, pp)
  }

  /** Case folding consumes exactly one byte and writes its lower-case form,
      which only differs from the byte for A..Z. */
  lemma AsciiMbcCaseFoldSpec(source: seq<Byte>, pp: nat)
    requires pp < |source|
    ensures MbcCaseFold(source, pp).next == pp + 1
    ensures |MbcCaseFold(source, pp).folded| == 1
    ensures !IsAsciiUpper(MbcCaseFold(source, pp).folded[0])
    ensures MbcCaseFold(source, pp).folded[0] != source[pp] <==> IsAsciiUpper(source[pp])
  {
  }

  /** `flag`: ASCII-compatible, skip offset 1, not Unicode. */
  const FLAG: bv32 := ENC_FLAG_ASCII_COMPATIBLE | ENC_FLAG_SKIP_OFFSET_1

  /** The flag queries on ASCII. */
  lemma AsciiFlag()
    ensures IsAsciiCompatibleFlag(FLAG) && !IsUnicodeFlag(FLAG) && SkipOffset(FLAG) == 1
  {
  }
}
