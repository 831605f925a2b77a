/** The UTF-8 encoding of encodings/utf8.rs (the code-point range of section 3
    of RFC 3629, U+0000..U+10FFFF, with the engine's 4-byte lead bytes up to
    0xF4). Bytes are `Byte` values; the source's bit masks on them are written
    as the equivalent divisions and remainders (`c & 0x3f` is `c % 64`,
    `(c & 0xc0) == 0x80` is `c / 64 == 2`, and `(x & m) | p` is `p + x % (m + 1)`
    because the prefix `p` shares no bit with the mask `m`). */
module Utf8 {
  import opened Wrappers
  import opened Oniguruma
  import opened Regenc
  import opened Unicode

  /** `utf8_islead`: not a continuation byte. */
  predicate IsLead(c: Byte) { c / 64 != 2 }

  /** `utf8_istail`: a continuation byte 10xxxxxx. */
  predicate IsTail(c: Byte) { c / 64 == 2 }

  /** ENC_LEN_UTF8: the character length announced by a first byte. */
  function EncLen(b: Byte): (n: nat)
    ensures 1 <= n <= 4
  {
    if b < 0xc2 then 1
    else if b <= 0xdf then 2
    else if b <= 0xef then 3
    else if b <= 0xf4 then 4
    else 1
  }

  /** `mbc_enc_len`: the length announced by the first byte. */
  function MbcEncLen(p: seq<Byte>): (n: nat)
    requires |p| >= 1
    ensures 1 <= n <= 4
  {
    EncLen(p[0])
  }

  // ---------------------------------------------------------------------------
  // Decoding
  // ---------------------------------------------------------------------------

  /** The payload mask of a lead byte, `(1 << (7 - len)) - 1`, plus one. */
  function LeadModulus(len: nat): (m: nat)
    requires 2 <= len <= 4
  {
    if len == 2 then 32 else if len == 3 then 16 else 8
  }

  /** Appends the six payload bits of bytes `i..len` to `n`. */
  function DecodeTail(p: seq<Byte>, n: nat, i: nat, len: nat): (code: nat)
    requires 1 <= i <= len <= |p|
    decreases len - i
  {
    if i == len then n else DecodeTail(p, n * 64 + p[i] % 64, i + 1, len)
  }

  /** The number of bytes `mbc_to_code` reads: the announced length, cut down
      to the bytes available. */
  function DecodeLen(p: seq<Byte>): (len: nat)
    requires |p| >= 1
    ensures 1 <= len <= |p| && len <= 4
  {
    if EncLen(p[0]) > |p| then |p| else EncLen(p[0])
  }

  /** `mbc_to_code`: the code of the character at the start of `p`. */
  function MbcToCode(p: seq<Byte>): (code: nat)
    requires |p| >= 1
  {
    var len := DecodeLen(p);
    if len > 1 then DecodeTail(p, p[0] % LeadModulus(len), 1, len) else p[0]
  }

  /** Decoding looks at no byte past the (cut-down) character length: any
      input that agrees on those bytes decodes to the same code. */
  lemma {:induction false} DecodeTailLocal(p: seq<Byte>, q: seq<Byte>, n: nat, i: nat, len: nat)
    requires 1 <= i <= len <= |p| && len <= |q| && p[..len] == q[..len]
    ensures DecodeTail(p, n, i, len) == DecodeTail(q, n, i, len)
    decreases len - i
  {
    if i < len {
      assert p[i] == p[..len][i] == q[..len][i] == q[i];
      DecodeTailLocal(p, q, n * 64 + p[i] % 64, i + 1, len);
    }
  }

  /** `mbc_to_code` reads only the first DecodeLen(p) bytes of its input. */
  lemma MbcToCodeReadsOneChar(p: seq<Byte>)
    requires |p| >= 1
    ensures |p[..DecodeLen(p)]| >= 1 && DecodeLen(p[..DecodeLen(p)]) == DecodeLen(p)
    ensures MbcToCode(p[..DecodeLen(p)]) == MbcToCode(p)
  {
    var len := DecodeLen(p);
    var q := p[..len];
    assert q[0] == p[0];
    if len > 1 {
      assert q[..len] == p[..len];
      DecodeTailLocal(q, p, q[0] % LeadModulus(len), 1, len);
    }
  }

  // ---------------------------------------------------------------------------
  // Encoding
  // ---------------------------------------------------------------------------

  /** `code_to_mbclen`: `code & 0xffffff80 == 0` holds for a u32 exactly when
      code < 0x80, and likewise for the other masks. */
  function CodeToMbclen(code: CodePoint): (r: int)
    ensures r == ERR_INVALID_CODE_POINT_VALUE || 1 <= r <= 4
    ensures r == ERR_INVALID_CODE_POINT_VALUE <==> code >= 0x20_0000
  {
    if code < 0x80 then 1
    else if code < 0x800 then 2
    else if code < 0x1_0000 then 3
    else if code < 0x20_0000 then 4
    else ERR_INVALID_CODE_POINT_VALUE
  }

  /** `code_to_mbc`: the bytes written for `code`, or TOO_BIG_WIDE_CHAR_VALUE
      from 0x200000 on. */
  function CodeToMbc(code: CodePoint): (r: Result<seq<Byte>>)
    ensures r.Err? <==> code >= 0x20_0000
    ensures r.Err? ==> r.code == ERR_TOO_BIG_WIDE_CHAR_VALUE
    ensures r.Ok? ==> |r.value| == CodeToMbclen(code)
    ensures r.Ok? ==> forall i :: 1 <= i < |r.value| ==> IsTail(r.value[i])
  {
    if code < 0x80 then Ok([code])
    else if code < 0x800 then Ok([0xc0 + (code / 64) % 32, 0x80 + code % 64])
    else if code < 0x1_0000 then
      Ok([0xe0 + (code / 4096) % 16, 0x80 + (code / 64) % 64, 0x80 + code % 64])
    else if code < 0x20_0000 then
      Ok([0xf0 + (code / 262144) % 8, 0x80 + (code / 4096) % 64, 0x80 + (code / 64) % 64,
          0x80 + code % 64])
    else Err(ERR_TOO_BIG_WIDE_CHAR_VALUE)
  }

  /** Round trip of the two-byte form. */
  lemma RoundTrip2(code: CodePoint)
    requires 0x80 <= code < 0x800
    ensures EncLen(CodeToMbc(code).value[0]) == 2
    ensures MbcToCode(CodeToMbc(code).value) == code
  {
    var bytes := CodeToMbc(code).value;
    var a, d := code / 64, code % 64;
    assert bytes == [0xc0 + a, 0x80 + d];
    assert bytes[0] % 32 == a;
    assert DecodeTail(bytes, a, 1, 2) == a * 64 + d;
  }

  /** Decoding three bytes with lead 0xE0..0xEF concatenates their payloads. */
  lemma Decode3(a: nat, b: nat, d: nat)
    requires a < 16 && b < 64 && d < 64
    ensures MbcToCode([0xe0 + a, 0x80 + b, 0x80 + d]) == (a * 64 + b) * 64 + d
  {
    var bytes: seq<Byte> := [0xe0 + a, 0x80 + b, 0x80 + d];
    assert DecodeLen(bytes) == 3;
    assert bytes[0] % 16 == a;
    assert DecodeTail(bytes, a * 64 + b, 2, 3) == (a * 64 + b) * 64 + d;
    assert DecodeTail(bytes, a, 1, 3) == DecodeTail(bytes, a * 64 + b, 2, 3);
  }

  /** The base-64 digits of a three-byte code as the encoder computes them. */
  lemma Digits3(code: nat)
    requires code < 0x1_0000
    ensures code == ((code / 4096) * 64 + (code / 64) % 64) * 64 + code % 64
    ensures code / 4096 < 16 && (code / 4096) % 16 == code / 4096
  {
    var q1 := code / 64;
    assert code == q1 * 64 + code % 64;
    assert q1 == (q1 / 64) * 64 + q1 % 64;
    assert q1 / 64 == code / 4096;
  }

  /** Round trip of the three-byte form. */
  lemma RoundTrip3(code: CodePoint)
    requires 0x800 <= code < 0x1_0000
    ensures EncLen(CodeToMbc(code).value[0]) == 3
    ensures MbcToCode(CodeToMbc(code).value) == code
  {
    Digits3(code);
    Decode3(code / 4096, (code / 64) % 64, code % 64);
  }

  /** Decoding four bytes with lead 0xF0..0xF4 concatenates their payloads. */
  lemma Decode4(a: nat, b: nat, c: nat, d: nat)
    requires a <= 4 && b < 64 && c < 64 && d < 64
    ensures MbcToCode([0xf0 + a, 0x80 + b, 0x80 + c, 0x80 + d]) == ((a * 64 + b) * 64 + c) * 64 + d
  {
    var bytes: seq<Byte> := [0xf0 + a, 0x80 + b, 0x80 + c, 0x80 + d];
    assert DecodeLen(bytes) == 4;
    assert bytes[0] % 8 == a;
    assert DecodeTail(bytes, (a * 64 + b) * 64 + c, 3, 4) == ((a * 64 + b) * 64 + c) * 64 + d;
    assert DecodeTail(bytes, a * 64 + b, 2, 4) == DecodeTail(bytes, (a * 64 + b) * 64 + c, 3, 4);
    assert DecodeTail(bytes, a, 1, 4) == DecodeTail(bytes, a * 64 + b, 2, 4);
  }

  /** The base-64 digits of a four-byte code as the encoder computes them. */
  lemma Digits4(code: nat)
    requires code < 0x14_0000
    ensures code == (((code / 262144) * 64 + (code / 4096) % 64) * 64 + (code / 64) % 64) * 64 + code % 64
    ensures code / 262144 <= 4 && (code / 262144) % 8 == code / 262144
  {
    var q1 := code / 64;
    var q2 := q1 / 64;
    assert code == q1 * 64 + code % 64;
    assert q1 == q2 * 64 + q1 % 64;
    assert q2 == code / 4096;
    assert q2 == (q2 / 64) * 64 + q2 % 64;
    assert q2 / 64 == code / 262144;
  }

  /** Round trip of the four-byte form, for the leads up to 0xF4. */
  lemma RoundTrip4(code: CodePoint)
    requires 0x1_0000 <= code < 0x14_0000
    ensures EncLen(CodeToMbc(code).value[0]) == 4
    ensures MbcToCode(CodeToMbc(code).value) == code
  {
    Digits4(code);
    Decode4(code / 262144, (code / 4096) % 64, (code / 64) % 64, code % 64);
  }

  /** Round trip over the code points of RFC 3629: the lead byte written
      announces the length `code_to_mbclen` reports, and decoding the bytes
      gives the code back. */
  lemma CodeToMbcRoundTrip(code: CodePoint)
    requires code <= 0x10_ffff
    ensures CodeToMbc(code).Ok?
    ensures EncLen(CodeToMbc(code).value[0]) == CodeToMbclen(code)
    ensures MbcToCode(CodeToMbc(code).value) == code
  {
    if code < 0x80 {
    } else if code < 0x800 {
      RoundTrip2(code);
    } else if code < 0x1_0000 {
      RoundTrip3(code);
    } else {
      RoundTrip4(code);
    }
  }

  /** The encoder accepts codes up to 0x1FFFFF, but from 0x140000 on its lead
      byte (0xF5..0xF7) announces a one-byte character, so the decoder reads
      the lead byte alone and never gives such a code back. */
  lemma CodeToMbcBeyondDecodableRange(code: CodePoint)
    requires 0x14_0000 <= code < 0x20_0000
    ensures CodeToMbclen(code) == 4 && CodeToMbc(code).Ok?
    ensures 0xf5 <= CodeToMbc(code).value[0] <= 0xf7
    ensures EncLen(CodeToMbc(code).value[0]) == 1
    ensures MbcToCode(CodeToMbc(code).value) == CodeToMbc(code).value[0]
    ensures MbcToCode(CodeToMbc(code).value) != code
  {
    assert 5 <= code / 262144 <= 7;
  }

  // ---------------------------------------------------------------------------
  // Validation
  // ---------------------------------------------------------------------------

  /** A byte that may start a character: ASCII or a lead 0xC2..0xF4. */
  predicate IsValidLead(b: Byte) {
    !(b > 0xf4 || (b > 0x7f && b < 0xc2))
  }

  /** All of `s[from..to]` are continuation bytes. */
  predicate TailsFrom(s: seq<Byte>, from: nat, to: nat)
    requires from <= to <= |s|
  {
    forall i :: from <= i < to ==> IsTail(s[i])
  }

  /** Reference definition: `s` splits into characters, each a valid lead
      followed by the continuation bytes its length announces. */
  predicate ValidUtf8(s: seq<Byte>)
    decreases |s|
  {
    |s| == 0 ||
    (IsValidLead(s[0]) && EncLen(s[0]) <= |s| && TailsFrom(s, 1, EncLen(s[0]))
     && ValidUtf8(s[EncLen(s[0])..]))
  }

  /** `is_valid_mbc_string`. */
  method IsValidMbcString(s: seq<Byte>) returns (ok: bool)
    ensures ok == ValidUtf8(s)
  {
    var p := 0;
    while p < |s|
      invariant 0 <= p <= |s|
      invariant ValidUtf8(s) == ValidUtf8(s[p..])
    {
      if s[p] > 0xf4 || (s[p] > 0x7f && s[p] < 0xc2) {
        return false;
      }
      var len := EncLen(s[p]);
      var start := p;
      p := p + 1;
      if len > 1 {
        var k := 1;
        while k < len
          invariant 1 <= k <= len && p == start + k && p <= |s|
          invariant TailsFrom(s, start + 1, p)
        {
          if p >= |s| {
            assert s[start..][0] == s[start];
            return false;
          }
          if !IsTail(s[p]) {
            assert s[start..][0] == s[start];
            assert s[start..][p - start] == s[p];
            return false;
          }
          p := p + 1;
          k := k + 1;
        }
      }
      var t := s[start..];
      assert t[0] == s[start];
      assert TailsFrom(t, 1, len) by {
        forall i | 1 <= i < len ensures IsTail(t[i]) { assert t[i] == s[start + i]; }
      }
      assert t[len..] == s[p..];
    }
    assert s[p..] == [];
    return true;
  }

  /** Validity is closed under concatenation. */
  lemma {:induction false} ValidUtf8Concat(a: seq<Byte>, b: seq<Byte>)
    requires ValidUtf8(a) && ValidUtf8(b)
    ensures ValidUtf8(a + b)
    decreases |a|
  {
    if |a| == 0 {
      assert a + b == b;
    } else {
      var len := EncLen(a[0]);
      ValidUtf8Concat(a[len..], b);
      assert (a + b)[len..] == a[len..] + b;
      assert TailsFrom(a + b, 1, len) by {
        forall i | 1 <= i < len ensures IsTail((a + b)[i]) { assert (a + b)[i] == a[i]; }
      }
    }
  }

  /** What the encoder writes for a code point of RFC 3629 is valid. */
  lemma CodeToMbcIsValid(code: CodePoint)
    requires code <= 0x10_ffff
    ensures ValidUtf8(CodeToMbc(code).value)
  {
    CodeToMbcRoundTrip(code);
    var bytes := CodeToMbc(code).value;
    assert bytes[|bytes|..] == [];
  }

  /** The rejections of the validator: a first byte above 0xF4 or in
      0x80..0xC1, a character cut short, or a non-continuation tail byte. */
  lemma ValidUtf8Rejects(s: seq<Byte>)
    requires |s| >= 1
    ensures !IsValidLead(s[0]) ==> !ValidUtf8(s)
    ensures EncLen(s[0]) > |s| ==> !ValidUtf8(s)
    ensures (exists i :: 1 <= i < EncLen(s[0]) && i < |s| && !IsTail(s[i])) ==> !ValidUtf8(s)
  {
  }

  // ---------------------------------------------------------------------------
  // Character heads
  // ---------------------------------------------------------------------------

  /** The backward walk of `left_adjust_char_head` from `p`: down to a lead
      byte, but not below `start`. */
  function WalkToLead(start: nat, p: nat, data: seq<Byte>): (r: nat)
    requires start <= p < |data|
    ensures start <= r <= p
    ensures r == start || IsLead(data[r])
    ensures forall k :: r < k <= p ==> !IsLead(data[k])
    decreases p
  {
    if !IsLead(data[p]) && p > start then WalkToLead(start, p - 1, data) else p
  }

  /** `left_adjust_char_head`: `s` itself at or before `start`, otherwise the
      nearest lead byte at or before `s`, or `start`. Reading `data[s]`
      demands `s < |data|` once `s > start`. */
  function LeftAdjustCharHead(start: nat, s: nat, data: seq<Byte>): (r: nat)
    requires s <= start || s < |data|
    ensures s <= start ==> r == s
    ensures s > start ==> start <= r <= s && (r == start || IsLead(data[r]))
    ensures s > start ==> forall k :: r < k <= s ==> !IsLead(data[k])
  {
    if s <= start then s else WalkToLead(start, s, data)
  }

  /** A lead byte is its own character head, and the head found is the last
      lead byte at or before `s` when there is one after `start`. */
  lemma LeftAdjustCharHeadIsNearestLead(start: nat, s: nat, data: seq<Byte>, k: nat)
    requires start < s < |data|
    requires start <= k <= s && IsLead(data[k])
    ensures k <= LeftAdjustCharHead(start, s, data)
    ensures IsLead(data[s]) ==> LeftAdjustCharHead(start, s, data) == s
  {
  }

  // ---------------------------------------------------------------------------
  // Case folding
  // ---------------------------------------------------------------------------

  /** `mbc_case_fold`: an ASCII byte is lowered and one byte consumed; any
      other character goes to the Unicode fold, which copies its EncLen bytes.
      That copy demands the whole character inside `source`. */
  function MbcCaseFold(source: seq<Byte>, pp: nat): (r: FoldStep)
    requires pp < |source|
    requires source[pp] >= 128 ==> pp + EncLen(source[pp]) <= |source|
    ensures source[pp] < 128 ==> r == FoldStep([AsciiToLower(source[pp])], pp + 1)
    ensures source[pp] >= 128 ==> r.folded == source[pp .. pp + EncLen(source[pp])]
    ensures pp < r.next <= |source| && r.next - pp == |r.folded|
  {
    if source[pp] < 128 then AsciiMbcCaseFold(source, pp)
    else UnicodeMbcCaseFold(EncLen(source[pp]), source, pp)
  }

  /** `flag`: ASCII-compatible, Unicode, skip offset "1 or 0". */
  const FLAG: bv32 := ENC_FLAG_ASCII_COMPATIBLE | ENC_FLAG_UNICODE | ENC_FLAG_SKIP_OFFSET_1_OR_0

  /** The flag queries on UTF-8. */
  lemma Utf8Flag()
    ensures IsAsciiCompatibleFlag(FLAG) && IsUnicodeFlag(FLAG) && SkipOffset(FLAG) == 7
  {
  }
}
