/** The encoding-independent helpers of regenc.rs: the ASCII lower-case and
    character-type tables, ASCII case folding, and the single-byte encoding
    functions shared by the encodings. The helpers that step through text with
    a particular encoding live in module Encoding. */
module Regenc {
  import opened Oniguruma

  const ASCII_LIMIT: int := 127

  /** Encoding flag bits: ASCII compatibility, Unicode, and a 3-bit skip
      offset stored from bit 2. */
  const ENC_FLAG_ASCII_COMPATIBLE: bv32 := 1
  const ENC_FLAG_UNICODE: bv32 := 2
  const ENC_FLAG_SKIP_OFFSET_MASK: bv32 := 7 << 2
  const ENC_FLAG_SKIP_OFFSET_1: bv32 := 1 << 2
  const ENC_FLAG_SKIP_OFFSET_1_OR_0: bv32 := 7 << 2

  /** `enc_get_skip_offset`. */
  function SkipOffset(flag: bv32): (r: bv32)
    ensures r < 8
  {
    (flag & ENC_FLAG_SKIP_OFFSET_MASK) >> 2
  }

  /** `onigenc_is_unicode_encoding`. */
  predicate IsUnicodeFlag(flag: bv32) { flag & ENC_FLAG_UNICODE != 0 }

  /** `onigenc_is_ascii_compatible_encoding`. */
  predicate IsAsciiCompatibleFlag(flag: bv32) { flag & ENC_FLAG_ASCII_COMPATIBLE != 0 }
  const NEWLINE_CODE: int := 0x0a

  predicate IsAsciiUpper(c: int) { 0x41 <= c <= 0x5a }
  predicate IsAsciiLower(c: int) { 0x61 <= c <= 0x7a }
  predicate IsAsciiDigit(c: int) { 0x30 <= c <= 0x39 }

  // ---------------------------------------------------------------------------
  // Lower-case table
  // ---------------------------------------------------------------------------

  /** ONIG_ENC_ASCII_TO_LOWER_CASE_TABLE: the entries for 'A'..'Z' hold
      'a'..'z', every other entry holds its own index. */
  function AsciiToLower(c: Byte): (r: Byte)
    ensures !IsAsciiUpper(r)
    ensures IsAsciiUpper(c) <==> r != c
  {
    if IsAsciiUpper(c) then c + 0x20 else c
  }

  /** Lowering is idempotent, turns exactly the upper-case letters into their
      lower-case partners, and identifies two bytes only when they are the two
      cases of one letter. */
  lemma AsciiToLowerLaws(c: Byte, d: Byte)
    ensures AsciiToLower(AsciiToLower(c)) == AsciiToLower(c)
    ensures IsAsciiUpper(c) ==> IsAsciiLower(AsciiToLower(c))
    ensures AsciiToLower(c) == AsciiToLower(d) <==>
      c == d || (IsAsciiUpper(c) && d == c + 0x20) || (IsAsciiUpper(d) && c == d + 0x20)
  {
  }

  // ---------------------------------------------------------------------------
  // Character-type table
  // ---------------------------------------------------------------------------

  /** 2^n, for the `1 << ctype` bit of a character type. */
  function Pow2(n: nat): (p: nat)
    ensures p >= 1
  {
    if n == 0 then 1 else 2 * Pow2(n - 1)
  }

  /** `entry & (ctype_to_bit(ctype) as u16) != 0` for a 16-bit table entry:
      the shifted bit is cut off by the cast for types 16 and above. The shift
      itself overflows for types of 32 and more. */
  predicate EntryHasCtype(entry: nat, ctype: nat)
    requires ctype < 32
  {
    ctype < 16 && (entry / Pow2(ctype)) % 2 == 1
  }

  /** ONIG_ENC_ASCII_CTYPE_TABLE as written, run by run; entries 128..255 are
      0. Entry 8 (backspace) holds 0x420c, the value of the tab entry. */
  function AsciiCtypeEntryAsWritten(code: nat): (e: nat)
    ensures code >= 128 ==> e == 0
  {
    if code < 8 then 0x4008
    else if code < 10 then 0x420c
    else if code == 10 then 0x4209
    else if code < 14 then 0x4208
    else if code < 32 then 0x4008
    else if code == 32 then 0x4284
    else if code < 48 then 0x41a0
    else if code < 58 then 0x78b0
    else if code < 65 then 0x41a0
    else if code < 71 then 0x7ca2
    else if code < 91 then 0x74a2
    else if code < 95 then 0x41a0
    else if code == 95 then 0x51a0
    else if code == 96 then 0x41a0
    else if code < 103 then 0x78e2
    else if code < 123 then 0x70e2
    else if code < 127 then 0x41a0
    else if code == 127 then 0x4008
    else 0
  }

  /** `onigenc_is_ascii_code_ctype` over the table as written. */
  predicate IsAsciiCodeCtypeAsWritten(code: CodePoint, ctype: nat)
    requires ctype < 32
  {
    code < 256 && EntryHasCtype(AsciiCtypeEntryAsWritten(code), ctype)
  }

  /** The table as written classifies backspace as a space and a blank, which
      no other character table of the engine does and the POSIX classes do not. */
  lemma AsciiCtypeAsWrittenBackspaceIsSpace()
    ensures IsAsciiCodeCtypeAsWritten(8, CTYPE_SPACE)
    ensures IsAsciiCodeCtypeAsWritten(8, CTYPE_BLANK)
  {
    assert Pow2(9) == 512 && Pow2(2) == 4;
  }

  /** The table with entry 8 set to 0x4008 (control, ASCII), as in every
      other 0..31 control entry other than the white-space ones. */
  function AsciiCtypeEntry(code: nat): (e: nat)
    ensures code != 8 ==> e == AsciiCtypeEntryAsWritten(code)
  {
    if code == 8 then 0x4008 else AsciiCtypeEntryAsWritten(code)
  }

  /** `onigenc_is_ascii_code_ctype` over the corrected table. */
  predicate IsAsciiCodeCtype(code: CodePoint, ctype: nat)
    requires ctype < 32
  {
    code < 256 && EntryHasCtype(AsciiCtypeEntry(code), ctype)
  }

  /** The bits of the character-type numbers, by value. */
  lemma Pow2Values()
    ensures Pow2(0) == 1 && Pow2(1) == 2 && Pow2(2) == 4 && Pow2(3) == 8
    ensures Pow2(4) == 16 && Pow2(5) == 32 && Pow2(6) == 64 && Pow2(7) == 128
    ensures Pow2(8) == 256 && Pow2(9) == 512 && Pow2(10) == 1024 && Pow2(11) == 2048
    ensures Pow2(12) == 4096 && Pow2(13) == 8192 && Pow2(14) == 16384
  {
    assert Pow2(14) == 16384;
  }

  /** The corrected table agrees with the POSIX definitions of the letter,
      digit and case classes on every ASCII code. */
  lemma {:induction false} AsciiCtypeLetterClasses(c: nat)
    requires c < 128
    ensures IsAsciiCodeCtype(c, CTYPE_DIGIT) <==> IsAsciiDigit(c)
    ensures IsAsciiCodeCtype(c, CTYPE_UPPER) <==> IsAsciiUpper(c)
    ensures IsAsciiCodeCtype(c, CTYPE_LOWER) <==> IsAsciiLower(c)
    ensures IsAsciiCodeCtype(c, CTYPE_ALPHA) <==> IsAsciiUpper(c) || IsAsciiLower(c)
    ensures IsAsciiCodeCtype(c, CTYPE_ALNUM) <==> IsAsciiUpper(c) || IsAsciiLower(c) || IsAsciiDigit(c)
    ensures IsAsciiCodeCtype(c, CTYPE_WORD) <==> IsAsciiUpper(c) || IsAsciiLower(c) || IsAsciiDigit(c) || c == 0x5f
    ensures IsAsciiCodeCtype(c, CTYPE_XDIGIT) <==> IsAsciiDigit(c) || 0x41 <= c <= 0x46 || 0x61 <= c <= 0x66
  {
    Pow2Values();
  }

  /** The corrected table agrees with the POSIX definitions of the white-space,
      control, printing and punctuation classes on every ASCII code; every
      ASCII code has the ASCII type. */
  lemma {:induction false} AsciiCtypeOtherClasses(c: nat)
    requires c < 128
    ensures IsAsciiCodeCtype(c, CTYPE_SPACE) <==> 9 <= c <= 13 || c == 32
    ensures IsAsciiCodeCtype(c, CTYPE_BLANK) <==> c == 9 || c == 32
    ensures IsAsciiCodeCtype(c, CTYPE_NEWLINE) <==> c == NEWLINE_CODE
    ensures IsAsciiCodeCtype(c, CTYPE_CNTRL) <==> c < 32 || c == 127
    ensures IsAsciiCodeCtype(c, CTYPE_PRINT) <==> 32 <= c <= 126
    ensures IsAsciiCodeCtype(c, CTYPE_GRAPH) <==> 33 <= c <= 126
    ensures IsAsciiCodeCtype(c, CTYPE_PUNCT) <==>
      33 <= c <= 126 && !(IsAsciiUpper(c) || IsAsciiLower(c) || IsAsciiDigit(c))
    ensures IsAsciiCodeCtype(c, CTYPE_ASCII)
  {
    Pow2Values();
  }

  /** No code of 128 or more has a type in the ASCII table. */
  lemma AsciiCtypeHighCodes(c: CodePoint, ctype: nat)
    requires c >= 128 && ctype < 32
    ensures !IsAsciiCodeCtype(c, ctype) && !IsAsciiCodeCtypeAsWritten(c, ctype)
  {
  }

  /** `onigenc_is_ascii_code_case_ambig`: upper or lower case in the table
      as written. */
  predicate IsAsciiCodeCaseAmbig(code: CodePoint) {
    IsAsciiCodeCtypeAsWritten(code, CTYPE_UPPER) || IsAsciiCodeCtypeAsWritten(code, CTYPE_LOWER)
  }

  /** The case-ambiguous codes are exactly the ASCII letters: the table's
      entry for backspace differs from the corrected one only in its
      white-space bits. */
  lemma {:induction false} CaseAmbigIsLetter(code: CodePoint)
    ensures IsAsciiCodeCaseAmbig(code) <==> IsAsciiUpper(code) || IsAsciiLower(code)
  {
    if code < 128 {
      AsciiCtypeLetterClasses(code);
      if code == 8 { Pow2Values(); }
    }
  }

  // ---------------------------------------------------------------------------
  // ASCII case folding
  // ---------------------------------------------------------------------------

  /** The result of folding one character: the folded bytes and the position
      after the character (the updated `*pp`). The source returns |folded|. */
  datatype FoldStep = FoldStep(folded: seq<Byte>, next: nat)

  /** `onigenc_ascii_mbc_case_fold`: lowers the byte at `pp` and moves on by
      one. Reading `source[pp]` demands `pp < |source|`. */
  function AsciiMbcCaseFold(source: seq<Byte>, pp: nat): (r: FoldStep)
    requires pp < |source|
    ensures r.next == pp + 1 && |r.folded| == 1
    ensures !IsAsciiUpper(r.folded[0])
    ensures AsciiToLower(r.folded[0]) == AsciiToLower(source[pp])
  {
    FoldStep([AsciiToLower(source[pp])], pp + 1)
  }

  /** One call of the case-fold callback: a code and the codes it folds to. */
  datatype FoldCall = FoldCall(from: CodePoint, to: seq<CodePoint>)

  /** The run of `apply_all_case_fold`: its return value and the callback
      calls made, in order. The callback is a pure function of its arguments. */
  datatype FoldRun = FoldRun(result: int, calls: seq<FoldCall>)

  /** Call `k` of the 52 the source makes: for pair `k / 2` of
      ONIG_ASCII_LOWER_MAP, upper to lower when `k` is even, then lower to
      upper. */
  function AsciiFoldCallAt(k: nat): (c: FoldCall)
    requires k < 52
  {
    if k % 2 == 0 then FoldCall(0x41 + k / 2, [0x61 + k / 2])
    else FoldCall(0x61 + k / 2, [0x41 + k / 2])
  }

  /** Every call in the order the source makes them. */
  function AsciiFoldCalls(): (calls: seq<FoldCall>)
    ensures |calls| == 52
    ensures forall k :: 0 <= k < 52 ==> calls[k] == AsciiFoldCallAt(k)
  {
    seq(52, k requires 0 <= k < 52 => AsciiFoldCallAt(k))
  }

  /** Makes the callback calls in order and stops at the first non-zero
      result, which it returns; 0 when every call returned 0. This is the
      control flow of the `apply_all_case_fold` loops. */
  function RunFoldCalls(f: (CodePoint, seq<CodePoint>) -> int, calls: seq<FoldCall>): (run: FoldRun)
    decreases |calls|
  {
    if |calls| == 0 then FoldRun(0, [])
    else
      var r := f(calls[0].from, calls[0].to);
      if r != 0 then FoldRun(r, [calls[0]])
      else
        var rest := RunFoldCalls(f, calls[1..]);
        FoldRun(rest.result, [calls[0]] + rest.calls)
  }

  /** `onigenc_ascii_apply_all_case_fold`: both directions of each of the 26
      letter pairs. */
  function AsciiApplyAllCaseFold(f: (CodePoint, seq<CodePoint>) -> int): (run: FoldRun) {
    RunFoldCalls(f, AsciiFoldCalls())
  }

  /** Every one of the first `n` calls returned 0. */
  predicate ZeroUpTo(f: (CodePoint, seq<CodePoint>) -> int, calls: seq<FoldCall>, n: int)
    requires n <= |calls|
  {
    forall k :: 0 <= k < n ==> f(calls[k].from, calls[k].to) == 0
  }

  /** The calls made are a prefix of the list, and all but the last returned
      0. */
  lemma {:induction false} RunFoldCallsPrefix(f: (CodePoint, seq<CodePoint>) -> int, calls: seq<FoldCall>)
    ensures var run := RunFoldCalls(f, calls);
      run.calls <= calls && ZeroUpTo(f, run.calls, |run.calls| - 1)
    decreases |calls|
  {
    if |calls| > 0 && f(calls[0].from, calls[0].to) == 0 {
      var tail := calls[1..];
      RunFoldCallsPrefix(f, tail);
      var run := RunFoldCalls(f, calls);
      var rest := RunFoldCalls(f, tail);
      assert run.calls == [calls[0]] + rest.calls;
      assert calls == [calls[0]] + tail;
      forall k | 1 <= k < |run.calls| - 1 ensures f(run.calls[k].from, run.calls[k].to) == 0 {
        assert run.calls[k] == rest.calls[k - 1];
      }
    }
  }

  /** The run returns 0 exactly when the whole list was called and every call
      returned 0; otherwise it returns the last call's result. */
  lemma {:induction false} RunFoldCallsResult(f: (CodePoint, seq<CodePoint>) -> int, calls: seq<FoldCall>)
    ensures var run := RunFoldCalls(f, calls);
      && (run.result == 0 <==> (run.calls == calls && ZeroUpTo(f, calls, |calls|)))
      && (run.result != 0 ==> (|run.calls| > 0 &&
            run.result == f(run.calls[|run.calls| - 1].from, run.calls[|run.calls| - 1].to)))
    decreases |calls|
  {
    if |calls| > 0 {
      var run := RunFoldCalls(f, calls);
      if f(calls[0].from, calls[0].to) != 0 {
        assert run.calls == [calls[0]];
        assert !ZeroUpTo(f, calls, |calls|);
      } else {
        var tail := calls[1..];
        RunFoldCallsResult(f, tail);
        var rest := RunFoldCalls(f, tail);
        assert run.calls == [calls[0]] + rest.calls;
        assert calls == [calls[0]] + tail;
        ZeroUpToCons(f, calls);
      }
    }
  }

  /** A list whose first call returned 0 is all-zero iff its tail is. */
  lemma ZeroUpToCons(f: (CodePoint, seq<CodePoint>) -> int, calls: seq<FoldCall>)
    requires |calls| > 0 && f(calls[0].from, calls[0].to) == 0
    ensures ZeroUpTo(f, calls, |calls|) <==> ZeroUpTo(f, calls[1..], |calls| - 1)
  {
    var tail := calls[1..];
    if ZeroUpTo(f, tail, |tail|) {
      forall k | 0 < k < |calls| ensures f(calls[k].from, calls[k].to) == 0 {
        assert calls[k] == tail[k - 1];
      }
    }
  }

  /** The whole ASCII run: the 52 calls of the pair table are made in order
      until the first non-zero result, which is returned; 0 means all 52
      calls were made and returned 0. */
  lemma AsciiApplyAllCaseFoldSpec(f: (CodePoint, seq<CodePoint>) -> int)
    ensures var run := AsciiApplyAllCaseFold(f);
      && run.calls <= AsciiFoldCalls()
      && ZeroUpTo(f, run.calls, |run.calls| - 1)
      && (run.result == 0 <==> (|run.calls| == 52 && ZeroUpTo(f, AsciiFoldCalls(), 52)))
      && (run.result != 0 ==> (|run.calls| > 0 &&
            run.result == f(run.calls[|run.calls| - 1].from, run.calls[|run.calls| - 1].to)))
  {
    RunFoldCallsPrefix(f, AsciiFoldCalls());
    RunFoldCallsResult(f, AsciiFoldCalls());
  }

  /** OnigCaseFoldCodeItem: the bytes consumed and the codes of one alternative. */
  datatype CaseFoldCodeItem = CaseFoldCodeItem(byteLen: int, codeLen: int, code: seq<CodePoint>)

  /** `onigenc_ascii_get_case_fold_codes_by_str`: the other-case letter of an
      ASCII letter, nothing for any other byte. Reading `p[0]` demands a
      non-empty input. */
  function AsciiGetCaseFoldCodesByStr(p: seq<Byte>): (items: seq<CaseFoldCodeItem>)
    requires |p| >= 1
    ensures |items| <= 1
    ensures |items| == 1 <==> IsAsciiUpper(p[0]) || IsAsciiLower(p[0])
    ensures |items| == 1 ==> items[0].byteLen == 1 && items[0].codeLen == 1 && |items[0].code| == 1
    ensures |items| == 1 ==> var other := items[0].code[0];
      other < 256 && other != p[0] && AsciiToLower(other) == AsciiToLower(p[0])
  {
    var c := p[0];
    if IsAsciiUpper(c) then [CaseFoldCodeItem(1, 1, [c + 0x20])]
    else if IsAsciiLower(c) then [CaseFoldCodeItem(1, 1, [c - 0x20])]
    else []
  }

  // ---------------------------------------------------------------------------
  // Single-byte encoding helpers
  // ---------------------------------------------------------------------------

  /** `onigenc_single_byte_mbc_to_code`: the byte itself. */
  function SingleByteMbcToCode(p: seq<Byte>): (code: CodePoint)
    requires |p| >= 1
    ensures code < 256
  {
    p[0]
  }

  /** `onigenc_single_byte_code_to_mbclen`: one byte below 256, an error
      otherwise. */
  function SingleByteCodeToMbclen(code: CodePoint): (r: int)
    ensures r == 1 || r == ERR_INVALID_CODE_POINT_VALUE
  {
    if code < 256 then 1 else ERR_INVALID_CODE_POINT_VALUE
  }

  /** `onigenc_single_byte_code_to_mbc`: the low byte of the code; always
      reports one byte written. */
  function SingleByteCodeToMbc(code: CodePoint): (bytes: seq<Byte>)
    ensures |bytes| == 1
  {
    [code % 256]
  }

  /** A code is representable in one byte iff its length is 1, and then
      encoding and decoding give it back; every byte decodes and re-encodes to
      itself. */
  lemma SingleByteRoundTrip(code: CodePoint, p: seq<Byte>)
    requires |p| >= 1
    ensures SingleByteCodeToMbclen(code) == 1 <==> code < 256
    ensures code < 256 ==> SingleByteMbcToCode(SingleByteCodeToMbc(code)) == code
    ensures SingleByteCodeToMbc(SingleByteMbcToCode(p)) == p[..1]
  {
  }

  /** `onigenc_is_mbc_newline_0x0a`. */
  predicate IsMbcNewline0x0a(p: seq<Byte>, end: nat) {
    |p| > 0 && end > 0 && p[0] == NEWLINE_CODE
  }
}
