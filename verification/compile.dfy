/** The bytecode compiler helpers of regcomp.rs: saturating length
    arithmetic, the choice of literal and character-class opcodes, the jump
    layout of quantifier loops with their repeat-range bookkeeping, the
    merging of adjacent string nodes (reduce_string_list), and the tail of
    onig_compile / onig_new. `compile_tree` of an arbitrary sub-tree is not
    modelled: where a quantifier compiles its body, the body's operations are
    a parameter. */
module Compile {
  import opened Wrappers
  import opened Oniguruma
  import opened Regint
  import opened Bits
  import opened Bitset
  import opened MemStatus
  import opened ParseTypes
  import CodeRange
  import Encoding

  // ---------------------------------------------------------------------------
  // Saturating length arithmetic (OnigLen is u32, INFINITE_LEN its maximum)
  // ---------------------------------------------------------------------------

  predicate IsI32(b: int) {
    I32_MIN <= b <= I32_MAX
  }

  /** `b as u32` for an i32: negative values wrap around. */
  function AsU32(b: int): (r: int)
    requires IsI32(b)
    ensures IsLen(r) && r % 0x1_0000_0000 == b % 0x1_0000_0000
  {
    if b < 0 then b + 0x1_0000_0000 else b
  }

  lemma MulMono(x: nat, y: nat, b: nat)
    requires x <= y
    ensures x * b <= y * b
  {
  }

  /** For a positive divisor, `a > l / b` exactly when `a * b > l`. */
  lemma DivBound(a: nat, b: nat, l: nat)
    requires b > 0
    ensures a > l / b <==> a * b > l
  {
    var q := l / b;
    assert l == q * b + l % b;
    if a > q {
      MulMono(q + 1, a, b);
      assert (q + 1) * b == q * b + b;
    } else {
      MulMono(a, q, b);
    }
  }

  /** `len_multiply_cmp(a, b, limit)`: whether `a * b` exceeds `limit`,
      decided by a division first so that the product never wraps; false
      when either factor is 0. */
  function LenMultiplyCmp(a: int, b: int, limit: int): (r: bool)
    requires IsLen(a) && IsI32(b) && IsLen(limit)
    ensures r <==> a != 0 && b != 0 && a * AsU32(b) > limit
  {
    if a == 0 || b == 0 then false
    else
      DivBound(a, AsU32(b), limit);
      if a > limit / AsU32(b) then true
      else a * AsU32(b) > limit
  }

  /** `distance_add`: the sum, saturated at INFINITE_LEN (an infinite operand
      gives INFINITE_LEN). */
  function DistanceAdd(d1: int, d2: int): (r: int)
    requires IsLen(d1) && IsLen(d2)
    ensures IsLen(r)
    ensures r == if d1 + d2 <= INFINITE_LEN then d1 + d2 else INFINITE_LEN
  {
    if d1 == INFINITE_LEN || d2 == INFINITE_LEN then INFINITE_LEN
    else if d1 <= INFINITE_LEN - d2 then d1 + d2
    else INFINITE_LEN
  }

  /** `distance_multiply`: 0 for a zero factor; the exact product when even
      one more multiple of the factor fits below INFINITE_LEN, otherwise
      INFINITE_LEN. It never wraps, and an infinite length stays infinite. */
  function DistanceMultiply(d: int, m: int): (r: int)
    requires IsLen(d) && IsI32(m)
    ensures IsLen(r)
    ensures m == 0 ==> r == 0
    ensures m != 0 ==> r == if (d + 1) * AsU32(m) <= INFINITE_LEN then d * AsU32(m) else INFINITE_LEN
    ensures m != 0 && d == INFINITE_LEN ==> r == INFINITE_LEN
  {
    if m == 0 then 0
    else
      var mu := AsU32(m);
      DivBound(d + 1, mu, INFINITE_LEN);
      MulMono(1, mu, d + 1);
      if d >= INFINITE_LEN / mu then INFINITE_LEN
      else d * mu
  }

  // ---------------------------------------------------------------------------
  // Literal opcodes
  // ---------------------------------------------------------------------------

  /** `select_str_opcode(mb_len, str_len)`. */
  function SelectStrOpcode(mbLen: int, strLen: int): (op: OpCode)
    ensures IsStrOpcode(op)
  {
    if mbLen == 1 then
      if strLen == 1 then Str1 else if strLen == 2 then Str2 else if strLen == 3 then Str3
      else if strLen == 4 then Str4 else if strLen == 5 then Str5 else StrN
    else if mbLen == 2 then
      if strLen == 1 then StrMb2n1 else if strLen == 2 then StrMb2n2 else if strLen == 3 then StrMb2n3
      else StrMb2n
    else if mbLen == 3 then StrMb3n
    else StrMbn
  }

  /** The character width a literal opcode is for; 0 for StrMbn, which
      serves every other width. */
  function StrOpcodeWidth(op: OpCode): nat
    requires IsStrOpcode(op)
  {
    if op.StrMb2n1? || op.StrMb2n2? || op.StrMb2n3? || op.StrMb2n? then 2
    else if op.StrMb3n? then 3
    else if op.StrMbn? then 0
    else 1
  }

  /** The character count fixed by the numbered literal opcodes. */
  function StrOpcodeCount(op: OpCode): Option<nat>
  {
    match op
    case Str1 => Some(1) case Str2 => Some(2) case Str3 => Some(3)
    case Str4 => Some(4) case Str5 => Some(5)
    case StrMb2n1 => Some(1) case StrMb2n2 => Some(2) case StrMb2n3 => Some(3)
    case _ => None
  }

  /** The chosen opcode tells the character width back for widths 1 to 3,
      and the run length back exactly for single-byte runs of 1 to 5 and
      two-byte runs of 1 to 3; every other choice is a counted form. */
  lemma SelectStrOpcodeInverse(mbLen: int, strLen: int)
    ensures StrOpcodeWidth(SelectStrOpcode(mbLen, strLen)) == if 1 <= mbLen <= 3 then mbLen else 0
    ensures StrOpcodeCount(SelectStrOpcode(mbLen, strLen))
      == if (mbLen == 1 && 1 <= strLen <= 5) || (mbLen == 2 && 1 <= strLen <= 3) then Some(strLen) else None
  {
  }

  /** The 16-byte inline buffer holding `b` and zero padding. */
  function ExactBuffer(b: seq<Byte>): (e: Exact16)
    requires |b| <= 16
    ensures e[..|b|] == b
  {
    b + seq(16 - |b|, _ => 0)
  }

  /** The bytes a literal instruction compares, read the way the matcher
      reads its payload: the first k inline bytes for STR_1 .. STR_5, the
      counted bytes of an `ExactN` for STR_N and of an `ExactLenN` for the
      multi-byte forms. None when the payload is not one the opcode reads
      (or its count does not fit its bytes). */
  function LiteralText(op: Operation): (t: Option<seq<Byte>>)
  {
    match op.opcode
    case Str1 => InlineText(op.payload, 1)
    case Str2 => InlineText(op.payload, 2)
    case Str3 => InlineText(op.payload, 3)
    case Str4 => InlineText(op.payload, 4)
    case Str5 => InlineText(op.payload, 5)
    case StrN =>
      if op.payload.ExactN? && 0 <= op.payload.n <= |op.payload.s| then Some(op.payload.s[..op.payload.n])
      else None
    case StrMb2n1 => CountedText(op.payload)
    case StrMb2n2 => CountedText(op.payload)
    case StrMb2n3 => CountedText(op.payload)
    case StrMb2n => CountedText(op.payload)
    case StrMb3n => CountedText(op.payload)
    case StrMbn => CountedText(op.payload)
    case _ => None
  }

  function InlineText(payload: Payload, k: nat): Option<seq<Byte>>
    requires k <= 16
  {
    if payload.Exact? then Some(payload.buf[..k]) else None
  }

  function CountedText(payload: Payload): Option<seq<Byte>> {
    if payload.ExactLenN? && 0 <= payload.n <= |payload.s| then Some(payload.s[..payload.n]) else None
  }

  /** The character width a literal instruction's payload is for: the
      width an `ExactLenN` records, 1 for the single-byte payloads. */
  function LiteralWidth(op: Operation): int {
    if op.payload.ExactLenN? then op.payload.len else 1
  }

  /** `add_compile_string` with the payload chosen to agree with the opcode:
      `Exact` exactly for Str1..Str5, `ExactN` for StrN, `ExactLenN` for the
      multi-byte forms. The instruction compares exactly the run's bytes. */
  function StringOp(s: seq<Byte>, mbLen: int, strLen: int): (op: Operation)
    requires 1 <= mbLen && 1 <= strLen && mbLen * strLen <= |s|
    ensures op.opcode == SelectStrOpcode(mbLen, strLen)
    ensures StrOpcodeCount(op.opcode).Some? && mbLen == 1 <==> op.payload.Exact?
    ensures op.payload.Exact? ==> op.payload.buf[..strLen] == s[..strLen]
    ensures op.opcode.StrN? ==> op.payload == ExactN(s[..strLen], strLen)
    ensures mbLen > 1 ==> op.payload == ExactLenN(s[..mbLen * strLen], mbLen * strLen, mbLen)
  {
    var byteLen := mbLen * strLen;
    var payload :=
      if mbLen == 1 && strLen <= 5 then Exact(ExactBuffer(s[..byteLen]))
      else if mbLen == 1 then ExactN(s[..byteLen], strLen)
      else ExactLenN(s[..byteLen], byteLen, mbLen);
    Operation(SelectStrOpcode(mbLen, strLen), payload)
  }

  /** The agreeing instruction compares exactly the run's bytes, for a
      character of the run's width. */
  lemma StringOpReadsBack(s: seq<Byte>, mbLen: int, strLen: int)
    requires 1 <= mbLen && 1 <= strLen && mbLen * strLen <= |s|
    ensures LiteralText(StringOp(s, mbLen, strLen)) == Some(s[..mbLen * strLen])
    ensures LiteralWidth(StringOp(s, mbLen, strLen)) == mbLen
  {
    var n := mbLen * strLen;
    var op := StringOp(s, mbLen, strLen);
    if mbLen == 1 && strLen <= 5 {
      assert op.payload.buf[..strLen] == s[..n];
      if strLen == 1 { assert op.opcode == Str1; }
      else if strLen == 2 { assert op.opcode == Str2; }
      else if strLen == 3 { assert op.opcode == Str3; }
      else if strLen == 4 { assert op.opcode == Str4; }
      else { assert op.opcode == Str5; }
    } else {
      assert s[..n][..n] == s[..n];
    }
  }

  /** The operation `add_compile_string` appends for a run of `strLen`
      characters of `mbLen` bytes at the start of `s`, as the source builds
      it: single-byte runs of up to 16 bytes get the inline `Exact` buffer,
      although runs of 6 or more get the StrN opcode, which reads only an
      `ExactN` payload. Such an instruction has no readable literal; every
      other one is the agreeing instruction. */
  function StringOpAsWritten(s: seq<Byte>, mbLen: int, strLen: int): (op: Operation)
    requires 1 <= mbLen && 1 <= strLen && mbLen * strLen <= |s|
    ensures op.opcode == SelectStrOpcode(mbLen, strLen) && LiteralWidth(op) == mbLen
    ensures LiteralText(op).None? <==> mbLen == 1 && 6 <= strLen <= 16
    ensures LiteralText(op).Some? ==> op == StringOp(s, mbLen, strLen)
  {
    var byteLen := mbLen * strLen;
    var payload :=
      if mbLen == 1 && byteLen <= 16 then Exact(ExactBuffer(s[..byteLen]))
      else if mbLen == 1 then ExactN(s[..byteLen], strLen)
      else ExactLenN(s[..byteLen], byteLen, mbLen);
    Operation(SelectStrOpcode(mbLen, strLen), payload)
  }

  /** The operation `compile_string_crude_node` appends for a non-empty
      crude string, as the source builds it: the instruction
      `add_compile_string` builds for one single-byte run, with the same
      `Exact`-for-StrN mismatch. It has no readable literal exactly for 6
      to 16 bytes, and otherwise compares all of the string. */
  function CrudeStringOpAsWritten(s: seq<Byte>): (op: Operation)
    requires |s| > 0
    ensures op == StringOpAsWritten(s, 1, |s|)
    ensures op.opcode == SelectStrOpcode(1, |s|)
    ensures LiteralText(op).None? <==> 6 <= |s| <= 16
    ensures LiteralText(op).Some? ==> LiteralText(op) == Some(s)
  {
    var payload := if |s| <= 16 then Exact(ExactBuffer(s)) else ExactN(s, |s|);
    assert s[..1 * |s|] == s;
    StringOpReadsBack(s, 1, |s|);
    Operation(SelectStrOpcode(1, |s|), payload)
  }

  /** `compile_string_crude_node`: nothing for an empty string, otherwise one
      single-byte literal of all its bytes (with the payload agreeing with
      the opcode). */
  function CompileStringCrudeNode(s: seq<Byte>): (ops: seq<Operation>)
    ensures |ops| == if |s| == 0 then 0 else 1
    ensures |s| > 0 ==> ops[0] == StringOp(s, 1, |s|)
  {
    if |s| == 0 then []
    else
      var payload := if |s| <= 5 then Exact(ExactBuffer(s)) else ExactN(s, |s|);
      [Operation(SelectStrOpcode(1, |s|), payload)]
  }

  // ---------------------------------------------------------------------------
  // compile_string_node: runs of characters of equal width
  // ---------------------------------------------------------------------------

  /** `s[pos..]` splits into whole characters of `enc`. */
  predicate WholeChars(enc: Encoding.Enc, s: seq<Byte>, pos: nat)
    decreases |s| - pos
  {
    pos == |s| || (pos < |s| && WholeChars(enc, s, pos + Encoding.EncLenAt(enc, s, pos)))
  }

  /** From `p` to `q` the text is whole characters of width `w`. */
  predicate UniformRun(enc: Encoding.Enc, s: seq<Byte>, p: nat, q: nat, w: nat)
    decreases q - p
  {
    p == q || (&& p < q && p < |s| && w >= 1 && Encoding.EncLenAt(enc, s, p) == w
               && UniformRun(enc, s, p + w, q, w))
  }

  /** Scans on from `p` while characters have width `w`: how many there are
      and where the run stops. */
  function RunFrom(enc: Encoding.Enc, s: seq<Byte>, p: nat, w: nat): (r: (nat, nat))
    requires w >= 1
    ensures r.1 == p + w * r.0
    ensures UniformRun(enc, s, p, r.1, w)
    ensures r.1 < |s| ==> Encoding.EncLenAt(enc, s, r.1) != w
    decreases |s| - p
  {
    if p < |s| && Encoding.EncLenAt(enc, s, p) == w then
      var t := RunFrom(enc, s, p + w, w);
      (t.0 + 1, t.1)
    else (0, p)
  }

  /** A run of whole characters ends on a character boundary inside `s`. */
  lemma {:induction false} RunFromWhole(enc: Encoding.Enc, s: seq<Byte>, p: nat, w: nat)
    requires w >= 1 && WholeChars(enc, s, p)
    ensures RunFrom(enc, s, p, w).1 <= |s| && WholeChars(enc, s, RunFrom(enc, s, p, w).1)
    decreases |s| - p
  {
    if p < |s| && Encoding.EncLenAt(enc, s, p) == w {
      RunFromWhole(enc, s, p + w, w);
    }
  }

  /** `ops` are literal instructions spelling `s` from `p` to its end, one
      per maximal run of characters of one width: each compares the bytes
      of its run, which are whole characters of the instruction's width,
      and the character after the run has another width. */
  predicate RunsCover(enc: Encoding.Enc, s: seq<Byte>, p: nat, ops: seq<Operation>)
    decreases |ops|
  {
    if |ops| == 0 then p == |s|
    else
      match LiteralText(ops[0])
      case None => false
      case Some(t) =>
        && 0 < |t| && p + |t| <= |s| && s[p..p + |t|] == t
        && LiteralWidth(ops[0]) >= 1
        && UniformRun(enc, s, p, p + |t|, LiteralWidth(ops[0]))
        && (p + |t| < |s| ==> Encoding.EncLenAt(enc, s, p + |t|) != LiteralWidth(ops[0]))
        && RunsCover(enc, s, p + |t|, ops[1..])
  }

  /** One more run in front of covering instructions. */
  lemma RunsCoverCons(enc: Encoding.Enc, s: seq<Byte>, p: nat, q: nat, op: Operation, rest: seq<Operation>)
    requires p < q <= |s| && LiteralText(op) == Some(s[p..q]) && LiteralWidth(op) >= 1
    requires UniformRun(enc, s, p, q, LiteralWidth(op))
    requires q < |s| ==> Encoding.EncLenAt(enc, s, q) != LiteralWidth(op)
    requires RunsCover(enc, s, q, rest) && forall i :: 0 <= i < |rest| ==> LiteralText(rest[i]).Some?
    ensures RunsCover(enc, s, p, [op] + rest)
    ensures forall i :: 0 <= i < |rest| + 1 ==> LiteralText(([op] + rest)[i]).Some?
  {
    assert ([op] + rest)[1..] == rest;
  }

  /** The first run of a string from `pos`: its character width, its
      character count and the byte where it stops. */
  datatype Run = Run(width: nat, count: nat, end: nat)

  /** The run the source's inner loop measures from `pos`: at least one
      character, all of the first character's width, stopping on a character
      boundary before a character of another width or at the end. */
  function FirstRun(enc: Encoding.Enc, s: seq<Byte>, pos: nat): (r: Run)
    requires pos < |s| && WholeChars(enc, s, pos)
    ensures r.width == Encoding.EncLenAt(enc, s, pos) && r.count >= 1
    ensures r.end == pos + r.width * r.count <= |s| && WholeChars(enc, s, r.end)
    ensures UniformRun(enc, s, pos, r.end, r.width)
    ensures r.end < |s| ==> Encoding.EncLenAt(enc, s, r.end) != r.width
  {
    var w := Encoding.EncLenAt(enc, s, pos);
    RunFromWhole(enc, s, pos + w, w);
    var run := RunFrom(enc, s, pos + w, w);
    assert w * (run.0 + 1) == w * run.0 + w;
    Run(w, run.0 + 1, run.1)
  }

  /** `compile_string_node` from byte `pos` on, with the agreeing payloads:
      the instructions spell the rest of the string, one per maximal run of
      characters of one width. */
  function StringOpsFrom(enc: Encoding.Enc, s: seq<Byte>, pos: nat): (ops: seq<Operation>)
    requires WholeChars(enc, s, pos)
    ensures RunsCover(enc, s, pos, ops)
    ensures forall i :: 0 <= i < |ops| ==> LiteralText(ops[i]).Some?
    decreases |s| - pos
  {
    if pos >= |s| then []
    else
      var run := FirstRun(enc, s, pos);
      var op := StringOp(s[pos..], run.width, run.count);
      StringOpReadsBack(s[pos..], run.width, run.count);
      assert s[pos..][..run.width * run.count] == s[pos..run.end];
      var rest := StringOpsFrom(enc, s, run.end);
      RunsCoverCons(enc, s, pos, run.end, op, rest);
      [op] + rest
  }

  /** The first run's instruction, then the rest. */
  lemma StringOpsFromUnfold(enc: Encoding.Enc, s: seq<Byte>, pos: nat)
    requires pos < |s| && WholeChars(enc, s, pos)
    ensures var run := FirstRun(enc, s, pos);
      StringOpsFrom(enc, s, pos) == [StringOp(s[pos..], run.width, run.count)] + StringOpsFrom(enc, s, run.end)
  {
  }

  /** The as-written instruction for a run against the agreeing one: the
      same opcode, the same instruction whenever it has a readable literal,
      and none exactly for a single-byte run of 6 to 16 characters. */
  lemma StringOpAsWrittenAgainst(s: seq<Byte>, mbLen: int, strLen: int)
    requires 1 <= mbLen && 1 <= strLen && mbLen * strLen <= |s|
    ensures var op := StringOpAsWritten(s, mbLen, strLen);
      var fixed := StringOp(s, mbLen, strLen);
      && op.opcode == fixed.opcode
      && (LiteralText(op).Some? ==> op == fixed)
      && (LiteralText(op).None? <==> fixed.opcode.StrN? && |LiteralText(fixed).value| <= 16)
  {
    StringOpReadsBack(s, mbLen, strLen);
    if mbLen > 1 { assert mbLen * strLen >= mbLen; }
  }

  lemma SingleAsWrittenOf(s: seq<Byte>, mbLen: int, strLen: int)
    requires 1 <= mbLen && 1 <= strLen && mbLen * strLen <= |s|
    ensures AsWrittenOf([StringOpAsWritten(s, mbLen, strLen)], [StringOp(s, mbLen, strLen)])
  {
    StringOpAsWrittenAgainst(s, mbLen, strLen);
  }

  /** `ops` are the agreeing instructions `fixed` as the source builds
      them: the same opcodes, the same instruction wherever it has a
      readable literal, and none exactly where the agreeing one is STR_N of
      at most 16 bytes. */
  predicate AsWrittenOf(ops: seq<Operation>, fixed: seq<Operation>) {
    && |ops| == |fixed|
    && (forall i :: 0 <= i < |ops| ==> ops[i].opcode == fixed[i].opcode)
    && (forall i :: 0 <= i < |ops| && LiteralText(ops[i]).Some? ==> ops[i] == fixed[i])
    && (forall i :: 0 <= i < |ops| ==>
          (LiteralText(ops[i]).None? <==>
             fixed[i].opcode.StrN? && LiteralText(fixed[i]).Some? && |LiteralText(fixed[i]).value| <= 16))
  }

  lemma AsWrittenOfCons(op: Operation, fixedOp: Operation, ops: seq<Operation>, fixed: seq<Operation>)
    requires AsWrittenOf([op], [fixedOp]) && AsWrittenOf(ops, fixed)
    ensures AsWrittenOf([op] + ops, [fixedOp] + fixed)
  {
    var a, b := [op] + ops, [fixedOp] + fixed;
    forall i | 1 <= i < |a| ensures a[i] == ops[i - 1] && b[i] == fixed[i - 1] { }
  }

  /** The as-written instruction of the first run in front of the
      as-written rest. */
  lemma AsWrittenStep(enc: Encoding.Enc, s: seq<Byte>, pos: nat, rest: seq<Operation>)
    requires pos < |s| && WholeChars(enc, s, pos)
    requires AsWrittenOf(rest, StringOpsFrom(enc, s, FirstRun(enc, s, pos).end))
    ensures var run := FirstRun(enc, s, pos);
      AsWrittenOf([StringOpAsWritten(s[pos..], run.width, run.count)] + rest, StringOpsFrom(enc, s, pos))
  {
    var run := FirstRun(enc, s, pos);
    SingleAsWrittenOf(s[pos..], run.width, run.count);
    StringOpsFromUnfold(enc, s, pos);
    AsWrittenOfCons(StringOpAsWritten(s[pos..], run.width, run.count), StringOp(s[pos..], run.width, run.count),
                    rest, StringOpsFrom(enc, s, run.end));
  }

  /** `compile_string_node` from byte `pos` on, as the source builds it
      with `add_compile_string`: the same instructions as with agreeing
      payloads, except that a single-byte run of 6 to 16 characters gets an
      instruction with no readable literal. */
  function StringOpsFromAsWritten(enc: Encoding.Enc, s: seq<Byte>, pos: nat): (ops: seq<Operation>)
    requires WholeChars(enc, s, pos)
    ensures AsWrittenOf(ops, StringOpsFrom(enc, s, pos))
    decreases |s| - pos
  {
    if pos >= |s| then []
    else
      var run := FirstRun(enc, s, pos);
      var rest := StringOpsFromAsWritten(enc, s, run.end);
      AsWrittenStep(enc, s, pos, rest);
      [StringOpAsWritten(s[pos..], run.width, run.count)] + rest
  }

  /** The first run's as-written instruction, then the rest. */
  lemma StringOpsFromAsWrittenUnfold(enc: Encoding.Enc, s: seq<Byte>, pos: nat)
    requires pos < |s| && WholeChars(enc, s, pos)
    ensures var run := FirstRun(enc, s, pos);
      StringOpsFromAsWritten(enc, s, pos)
        == [StringOpAsWritten(s[pos..], run.width, run.count)] + StringOpsFromAsWritten(enc, s, run.end)
  {
  }

  /** `compile_string_node` with agreeing payloads. The string must be a
      whole number of characters (a truncated last character makes the
      source's slice panic). */
  function CompileStringNode(enc: Encoding.Enc, s: seq<Byte>): (ops: seq<Operation>)
    requires WholeChars(enc, s, 0)
    ensures RunsCover(enc, s, 0, ops)
    ensures |s| == 0 <==> |ops| == 0
  {
    StringOpsFrom(enc, s, 0)
  }

  /** `compile_string_node` as written: the instructions of
      CompileStringNode, with the single-byte runs of 6 to 16 characters
      left unreadable. */
  function CompileStringNodeAsWritten(enc: Encoding.Enc, s: seq<Byte>): (ops: seq<Operation>)
    requires WholeChars(enc, s, 0)
    ensures AsWrittenOf(ops, CompileStringNode(enc, s))
  {
    StringOpsFromAsWritten(enc, s, 0)
  }

  // ---------------------------------------------------------------------------
  // compile_cclass_node
  // ---------------------------------------------------------------------------

  /** A class node as the parser builds it: at most
      MAX_MULTI_BYTE_RANGES_NUM ranges. */
  predicate ValidCClass(cc: CClassNode) {
    cc.mbuf.Some? ==> |cc.mbuf.value| <= MAX_MULTI_BYTE_RANGES_NUM
  }

  predicate IsNegatedClassOpcode(op: OpCode) {
    op.CClassNot? || op.CClassMbNot? || op.CClassMixNot?
  }

  /** `compile_cclass_node`: the single operation for a class. */
  function CompileCClassNode(cc: CClassNode): (op: Operation)
    requires ValidCClass(cc)
  {
    var hasMb := cc.mbuf.Some?;
    var hasSb := !BitsetIsEmpty(cc.bs);
    if hasMb && hasSb then
      Operation(if IsNot(cc) then CClassMixNot else CClassMix,
                CClassMixPayload(CodeRange.Serialize(cc.mbuf.value), cc.bs))
    else if hasMb then
      Operation(if IsNot(cc) then CClassMbNot else CClassMb, CClassMbPayload(CodeRange.Serialize(cc.mbuf.value)))
    else
      Operation(if IsNot(cc) then OpCode.CClassNot else OpCode.CClass, CClassPayload(cc.bs))
  }

  /** Everything the class says can be read back from its operation: the
      negation from the opcode, the bitset from the payload unless it is
      empty and a range buffer is present, and the ranges from the
      serialized buffer. The mixed form is chosen exactly when both parts
      are present. */
  lemma CompileCClassReadBack(cc: CClassNode)
    requires ValidCClass(cc)
    ensures var op := CompileCClassNode(cc);
      && IsNegatedClassOpcode(op.opcode) == IsNot(cc)
      && ((op.opcode.CClassMix? || op.opcode.CClassMixNot?) <==> cc.mbuf.Some? && !BitsetIsEmpty(cc.bs))
      && (cc.mbuf.None? ==> op.payload == CClassPayload(cc.bs))
      && (cc.mbuf.Some? ==>
            (&& !op.payload.CClassPayload?
             && CodeRange.U32At(op.payload.mb, 0) == |cc.mbuf.value|
             && 4 + 8 * |cc.mbuf.value| <= |op.payload.mb|
             && CodeRange.TableRanges(op.payload.mb, |cc.mbuf.value|) == cc.mbuf.value))
      && (op.payload.CClassMixPayload? ==> op.payload.bsp == cc.bs)
      && (op.payload.CClassMbPayload? ==> BitsetIsEmpty(cc.bs))
  {
    if cc.mbuf.Some? {
      CodeRange.SerializeReadBack(cc.mbuf.value);
    }
  }

  // ---------------------------------------------------------------------------
  // Quantifiers
  // ---------------------------------------------------------------------------

  /** Op sizes of regcomp.rs: every instruction is one slot. */
  const SIZE_INC: int := 1
  const OPSIZE_JUMP: int := 1
  const OPSIZE_PUSH: int := 1
  const OPSIZE_REPEAT_INC: int := 1
  const OPSIZE_EMPTY_CHECK_START: int := 1
  const OPSIZE_EMPTY_CHECK_END: int := 1

  /** Whether a quantifier body may match the empty string, and how its
      emptiness is checked. */
  datatype BodyEmpty = NotEmpty | MayBeEmpty | MayBeEmptyMem | MayBeEmptyRec

  /** The fields of a quantifier node the compiler reads (the body is passed
      separately, compiled). */
  datatype QuantNode = QuantNode(lower: int, upper: int, greedy: bool, emptiness: BodyEmpty)

  /** The part of the regex the compiler fills in while emitting code. */
  datatype RegexState = RegexState(ops: seq<Operation>, numRepeat: int, repeatRange: seq<RepeatRange>,
                                   numEmptyCheck: int)

  /** One repeat range per allocated repeat id. */
  predicate ValidState(st: RegexState) {
    0 <= st.numRepeat == |st.repeatRange| && 0 <= st.numEmptyCheck
  }

  /** `add_op`: appends one instruction. */
  function AddOp(st: RegexState, opcode: OpCode, payload: Payload): (r: RegexState)
    ensures r.ops == st.ops + [Operation(opcode, payload)]
    ensures r.numRepeat == st.numRepeat && r.repeatRange == st.repeatRange && r.numEmptyCheck == st.numEmptyCheck
  {
    st.(ops := st.ops + [Operation(opcode, payload)])
  }

  /** `entry_repeat_range`: allocates the next repeat id and records its
      bounds with a zero body offset. (The source wraps the id in an `Ok`
      that is never an error.) */
  function EntryRepeatRange(st: RegexState, lower: int, upper: int): (r: (RegexState, int))
    ensures r.0.ops == st.ops && r.0.numEmptyCheck == st.numEmptyCheck
  {
    (st.(numRepeat := st.numRepeat + 1, repeatRange := st.repeatRange + [RepeatRange(lower, upper, 0)]),
     st.numRepeat)
  }

  /** The id handed out is the previous repeat count, the table keeps one
      entry per id, and the new id indexes the new bounds. */
  lemma EntryRepeatRangeSpec(st: RegexState, lower: int, upper: int)
    requires ValidState(st)
    ensures var (st', id) := EntryRepeatRange(st, lower, upper);
      && ValidState(st') && id == st.numRepeat && st'.numRepeat == st.numRepeat + 1
      && st'.repeatRange[id] == RepeatRange(lower, upper, 0)
      && st'.repeatRange[..id] == st.repeatRange
  {
  }

  /** The operations of one loop iteration: the body, bracketed by the
      empty-check pair with check id `mem` when the body may be empty. */
  function LoopBody(body: seq<Operation>, mem: int, emptiness: BodyEmpty): (ops: seq<Operation>)
  {
    if emptiness == NotEmpty then body
    else
      var endOp := match emptiness
        case MayBeEmptyMem => EmptyCheckEndMemst
        case MayBeEmptyRec => EmptyCheckEndMemstPush
        case _ => EmptyCheckEnd;
      [Operation(EmptyCheckStart, EmptyCheckStartPayload(mem))] + body
        + [Operation(endOp, EmptyCheckEndPayload(mem, Zero()))]
  }

  /** `compile_quant_body_with_empty_check`, with the body already compiled. */
  function CompileQuantBody(st: RegexState, body: seq<Operation>, emptiness: BodyEmpty): (r: RegexState)
    ensures r.numRepeat == st.numRepeat && r.repeatRange == st.repeatRange
  {
    if emptiness == NotEmpty then st.(ops := st.ops + body)
    else
      var mem := st.numEmptyCheck;
      var st1 := AddOp(st.(numEmptyCheck := mem + 1), EmptyCheckStart, EmptyCheckStartPayload(mem));
      var st2 := st1.(ops := st1.ops + body);
      var endMem := st2.numEmptyCheck - 1;
      var endOp := match emptiness
        case MayBeEmptyMem => EmptyCheckEndMemst
        case MayBeEmptyRec => EmptyCheckEndMemstPush
        case _ => EmptyCheckEnd;
      AddOp(st2, endOp, EmptyCheckEndPayload(endMem, Zero()))
  }

  /** The body emits LoopBody with the next empty-check id, allocating that
      id when it checks. */
  lemma CompileQuantBodyIsLoopBody(st: RegexState, body: seq<Operation>, emptiness: BodyEmpty)
    ensures CompileQuantBody(st, body, emptiness).ops == st.ops + LoopBody(body, st.numEmptyCheck, emptiness)
    ensures CompileQuantBody(st, body, emptiness).numEmptyCheck
      == st.numEmptyCheck + (if emptiness == NotEmpty then 0 else 1)
  {
  }

  /** `n` copies of the body (`compile_tree_n_times`). */
  function Repeated(body: seq<Operation>, n: nat): (ops: seq<Operation>)
    ensures |ops| == n * |body|
  {
    if n == 0 then [] else body + Repeated(body, n - 1)
  }

  /** The copies of the body emitted before the loop of an unbounded
      quantifier: one for `+`, `lower - 1` for `{n,}` with n >= 2. */
  function PreCopies(lower: int): nat
  {
    if lower <= 1 then (if lower == 1 then 1 else 0) else lower - 1
  }

  /** `compile_quantifier_node`. `bodyLen` is what `compile_length_tree`
      gives for the body (negative for an error) and `body` what
      `compile_tree` emits for it. */
  function CompileQuantifier(st: RegexState, q: QuantNode, bodyLen: int, body: Result<seq<Operation>>)
    : (r: Result<RegexState>)
    requires ValidState(st)
    ensures r.Ok? ==> ValidState(r.value) && |st.ops| <= |r.value.ops|
  {
    if q.upper == 0 then Ok(st)
    else if bodyLen < 0 then Err(bodyLen)
    else if body.Err? then Err(body.code)
    else
      var b := body.value;
      var modTlen := bodyLen + (if q.emptiness != NotEmpty then OPSIZE_EMPTY_CHECK_START + OPSIZE_EMPTY_CHECK_END else 0);
      if IsInfiniteRepeat(q.upper) then
        var st1 := st.(ops := st.ops + Repeated(b, PreCopies(q.lower)));
        if q.greedy then
          var st2 := AddOp(st1, Push, PushPayload(SIZE_INC + modTlen + OPSIZE_JUMP));
          var st3 := CompileQuantBody(st2, b, q.emptiness);
          Ok(AddOp(st3, Jump, JumpPayload(-(modTlen + OPSIZE_PUSH))))
        else
          var st2 := AddOp(st1, Jump, JumpPayload(modTlen + SIZE_INC));
          var st3 := CompileQuantBody(st2, b, q.emptiness);
          Ok(AddOp(st3, Push, PushPayload(-modTlen)))
      else if q.lower == q.upper && q.lower == 1 then
        Ok(st.(ops := st.ops + b))
      else
        var (st1, id) := EntryRepeatRange(st, q.lower, q.upper);
        var repeatOp := if q.lower == q.upper || q.greedy then Repeat else RepeatNg;
        var st2 := AddOp(st1, repeatOp, RepeatPayload(id, SIZE_INC + modTlen + OPSIZE_REPEAT_INC));
        var st3 := st2.(repeatRange := st2.repeatRange[id := st2.repeatRange[id].(uOffset := |st2.ops|)]);
        var st4 := CompileQuantBody(st3, b, q.emptiness);
        Ok(AddOp(st4, if q.greedy then RepeatInc else RepeatIncNg, RepeatIncPayload(id)))
  }

  /** The length of one loop iteration as the compiler reckons it. */
  function ModTlen(bodyLen: int, emptiness: BodyEmpty): int
  {
    bodyLen + if emptiness == NotEmpty then 0 else 2
  }

  lemma LoopBodyLength(body: seq<Operation>, mem: int, emptiness: BodyEmpty)
    ensures |LoopBody(body, mem, emptiness)| == ModTlen(|body|, emptiness)
  {
  }

  /** Greedy unbounded loop (`*`, `+`, `{n,}`): after the copies of the body,
      a PUSH whose alternative is the first instruction after the loop, the
      loop body, and a JUMP back to the PUSH. Holds when the body's computed
      length agrees with the operations it emits. */
  lemma GreedyLoopLayout(st: RegexState, q: QuantNode, body: seq<Operation>)
    requires ValidState(st) && q.upper == INFINITE_REPEAT && q.greedy
    ensures var r := CompileQuantifier(st, q, |body|, Ok(body));
      var k := |st.ops| + PreCopies(q.lower) * |body|;
      && r.Ok?
      && var ops := r.value.ops;
      && k + 1 < |ops|
      && ops[..|st.ops|] == st.ops
      && ops[|st.ops|..k] == Repeated(body, PreCopies(q.lower))
      && ops[k] == Operation(Push, PushPayload(|ops| - k))
      && ops[k + 1..|ops| - 1] == LoopBody(body, st.numEmptyCheck, q.emptiness)
      && ops[|ops| - 1] == Operation(Jump, JumpPayload(k - (|ops| - 1)))
  {
    var r := CompileQuantifier(st, q, |body|, Ok(body));
    var k := |st.ops| + PreCopies(q.lower) * |body|;
    var st1 := st.(ops := st.ops + Repeated(body, PreCopies(q.lower)));
    var st2 := AddOp(st1, Push, PushPayload(ModTlen(|body|, q.emptiness) + 2));
    CompileQuantBodyIsLoopBody(st2, body, q.emptiness);
    LoopBodyLength(body, st.numEmptyCheck, q.emptiness);
    var ops := r.value.ops;
    assert ops == st.ops + Repeated(body, PreCopies(q.lower))
      + [Operation(Push, PushPayload(ModTlen(|body|, q.emptiness) + 2))]
      + LoopBody(body, st.numEmptyCheck, q.emptiness)
      + [Operation(Jump, JumpPayload(-(ModTlen(|body|, q.emptiness) + 1)))];
  }

  /** Lazy unbounded loop (`*?`, `+?`, `{n,}?`): a JUMP to the closing PUSH,
      the loop body, and the PUSH whose alternative is the start of the loop
      body, so the exit is tried first. */
  lemma LazyLoopLayout(st: RegexState, q: QuantNode, body: seq<Operation>)
    requires ValidState(st) && q.upper == INFINITE_REPEAT && !q.greedy
    ensures var r := CompileQuantifier(st, q, |body|, Ok(body));
      var k := |st.ops| + PreCopies(q.lower) * |body|;
      && r.Ok?
      && var ops := r.value.ops;
      && k + 1 < |ops|
      && ops[..|st.ops|] == st.ops
      && ops[|st.ops|..k] == Repeated(body, PreCopies(q.lower))
      && ops[k] == Operation(Jump, JumpPayload((|ops| - 1) - k))
      && ops[k + 1..|ops| - 1] == LoopBody(body, st.numEmptyCheck, q.emptiness)
      && ops[|ops| - 1] == Operation(Push, PushPayload((k + 1) - (|ops| - 1)))
  {
    var r := CompileQuantifier(st, q, |body|, Ok(body));
    var st1 := st.(ops := st.ops + Repeated(body, PreCopies(q.lower)));
    var st2 := AddOp(st1, Jump, JumpPayload(ModTlen(|body|, q.emptiness) + 1));
    CompileQuantBodyIsLoopBody(st2, body, q.emptiness);
    LoopBodyLength(body, st.numEmptyCheck, q.emptiness);
    var ops := r.value.ops;
    assert ops == st.ops + Repeated(body, PreCopies(q.lower))
      + [Operation(Jump, JumpPayload(ModTlen(|body|, q.emptiness) + 1))]
      + LoopBody(body, st.numEmptyCheck, q.emptiness)
      + [Operation(Push, PushPayload(-ModTlen(|body|, q.emptiness)))];
  }

  /** The counted loop's instructions and its repeat range, written out. */
  lemma RepeatLoopOps(st: RegexState, q: QuantNode, body: seq<Operation>)
    requires ValidState(st) && q.upper != 0 && q.upper != INFINITE_REPEAT
    requires !(q.lower == q.upper == 1)
    ensures var r := CompileQuantifier(st, q, |body|, Ok(body));
      && r.Ok?
      && r.value.ops == st.ops
           + [Operation(if q.lower == q.upper || q.greedy then Repeat else RepeatNg,
                        RepeatPayload(st.numRepeat, ModTlen(|body|, q.emptiness) + 2))]
           + LoopBody(body, st.numEmptyCheck, q.emptiness)
           + [Operation(if q.greedy then RepeatInc else RepeatIncNg, RepeatIncPayload(st.numRepeat))]
      && r.value.numRepeat == st.numRepeat + 1
      && r.value.repeatRange == st.repeatRange + [RepeatRange(q.lower, q.upper, |st.ops| + 1)]
  {
    var (st1, id) := EntryRepeatRange(st, q.lower, q.upper);
    var repeatOp := if q.lower == q.upper || q.greedy then Repeat else RepeatNg;
    var st2 := AddOp(st1, repeatOp, RepeatPayload(id, ModTlen(|body|, q.emptiness) + 2));
    var st3 := st2.(repeatRange := st2.repeatRange[id := st2.repeatRange[id].(uOffset := |st2.ops|)]);
    assert st3.repeatRange == st.repeatRange + [RepeatRange(q.lower, q.upper, |st.ops| + 1)];
    CompileQuantBodyIsLoopBody(st3, body, q.emptiness);
  }

  /** Counted loop (`{n}` with n != 1, `{n,m}`): a REPEAT with the next
      repeat id whose exit target is the first instruction after the loop,
      the loop body, and a REPEAT_INC of the same id; the id's range records
      the bounds and, as `u_offset`, the index of the instruction after the
      REPEAT. */
  lemma RepeatLoopLayout(st: RegexState, q: QuantNode, body: seq<Operation>)
    requires ValidState(st) && q.upper != 0 && q.upper != INFINITE_REPEAT
    requires !(q.lower == q.upper == 1)
    ensures var r := CompileQuantifier(st, q, |body|, Ok(body));
      var k := |st.ops|;
      var id := st.numRepeat;
      && r.Ok?
      && var ops := r.value.ops;
      && k + 1 < |ops|
      && ops[..k] == st.ops
      && ops[k] == Operation(if q.lower == q.upper || q.greedy then Repeat else RepeatNg,
                             RepeatPayload(id, |ops| - k))
      && ops[k + 1..|ops| - 1] == LoopBody(body, st.numEmptyCheck, q.emptiness)
      && ops[|ops| - 1] == Operation(if q.greedy then RepeatInc else RepeatIncNg, RepeatIncPayload(id))
      && r.value.numRepeat == id + 1
      && r.value.repeatRange[id] == RepeatRange(q.lower, q.upper, k + 1)
      && r.value.repeatRange[..id] == st.repeatRange
  {
    RepeatLoopOps(st, q, body);
    LoopBodyLength(body, st.numEmptyCheck, q.emptiness);
  }

  /** `{0}` emits nothing and `{1}` emits the body alone; errors of the
      body's length or code are passed up. */
  lemma QuantifierTrivialCases(st: RegexState, q: QuantNode, bodyLen: int, body: Result<seq<Operation>>)
    requires ValidState(st)
    ensures q.upper == 0 ==> CompileQuantifier(st, q, bodyLen, body) == Ok(st)
    ensures q.upper != 0 && bodyLen < 0 ==> CompileQuantifier(st, q, bodyLen, body) == Err(bodyLen)
    ensures q.upper != 0 && bodyLen >= 0 && body.Err? ==> CompileQuantifier(st, q, bodyLen, body) == Err(body.code)
    ensures q.lower == q.upper == 1 && bodyLen >= 0 && body.Ok? ==>
      CompileQuantifier(st, q, bodyLen, body) == Ok(st.(ops := st.ops + body.value))
  {
  }

  // ---------------------------------------------------------------------------
  // reduce_string_list
  // ---------------------------------------------------------------------------

  /** A size that every child of a node is below. */
  function Size(n: Node): (k: nat)
    ensures k >= 1
    decreases n
  {
    match n.inner
    case Quant(b, _, _, _) => 1 + (match b case None => 0 case Some(x) => Size(x))
    case List(car, cdr) => 1 + Size(car) + (match cdr case None => 0 case Some(x) => Size(x))
    case Alt(car, cdr) => 1 + Size(car) + (match cdr case None => 0 case Some(x) => Size(x))
    case Bag(body, data) =>
      1 + OptSize(body) + (match data case IfElse(th, el) => OptSize(th) + OptSize(el) case _ => 0)
    case Anchor(body, _) => 1 + OptSize(body)
    case _ => 1
  }

  function OptSize(n: Option<Node>): (k: nat)
    decreases n
  {
    match n case None => 0 case Some(x) => Size(x)
  }

  /** A List cell (alt false) or an Alt cell (alt true). */
  predicate IsCell(n: Node, alt: bool) {
    if alt then n.inner.Alt? else n.inner.List?
  }

  /** The items `flatten_list` (or the alternation walk) collects from a
      chain: every car, and a last cdr that is not a cell as an item of its
      own. */
  function FlattenChain(n: Node, alt: bool): (items: seq<Node>)
    requires IsCell(n, alt)
    ensures |items| >= 1
    ensures forall i :: 0 <= i < |items| ==> Size(items[i]) < Size(n)
    decreases n
  {
    var rest := match n.inner.cdr
      case None => []
      case Some(next) => if IsCell(next, alt) then FlattenChain(next, alt) else [next];
    [n.inner.car] + rest
  }

  /** On a well-formed chain the collected items are its cars. */
  lemma {:induction false} FlattenChainIsCars(n: Node, alt: bool)
    requires IsChain(n, alt)
    ensures FlattenChain(n, alt) == Cars(n, alt)
    decreases n
  {
    match n.inner.cdr
    case None =>
    case Some(next) => FlattenChainIsCars(next, alt);
  }

  /** The chain `rebuild_list` (or the alternation rebuild) makes: fresh
      cells with no status bits. */
  function ChainOf(items: seq<Node>, alt: bool): (r: Node)
    requires |items| >= 1
    ensures IsChain(r, alt) && Cars(r, alt) == items
    decreases |items|
  {
    if |items| == 1 then Cell(items[0], None, alt)
    else
      var r := Cell(items[0], Some(ChainOf(items[1..], alt)), alt);
      assert items == [items[0]] + items[1..];
      r
  }

  /** Two string nodes `reduce_string_list` joins: same flags, same status. */
  predicate Mergeable(a: Node, b: Node) {
    a.inner.Str? && b.inner.Str? && a.inner.str.flag == b.inner.str.flag && a.status == b.status
  }

  /** `a` with the bytes of `b` appended. */
  function JoinStrings(a: Node, b: Node): (r: Node)
    requires a.inner.Str? && b.inner.Str?
  {
    a.(inner := Str(a.inner.str.(s := a.inner.str.s + b.inner.str.s)))
  }

  /** The merge loop: each string item is joined to the last kept item when
      that one is a string with the same flags and status, and kept
      otherwise; every other item is kept. */
  function MergeStrings(items: seq<Node>): (merged: seq<Node>)
    ensures |merged| <= |items|
    ensures |items| >= 1 ==> |merged| >= 1
    decreases |items|
  {
    if |items| == 0 then []
    else
      var m := MergeStrings(items[..|items| - 1]);
      var x := items[|items| - 1];
      if |m| > 0 && Mergeable(m[|m| - 1], x) then m[..|m| - 1] + [JoinStrings(m[|m| - 1], x)]
      else m + [x]
  }

  /** One byte of a string node with the node's flags and status, or a whole
      node of another kind. */
  datatype Unit = ByteUnit(b: Byte, flag: Word, status: Word) | NodeUnit(n: Node)

  function ByteUnits(s: seq<Byte>, flag: Word, status: Word): (us: seq<Unit>)
    decreases |s|
  {
    if |s| == 0 then [] else [ByteUnit(s[0], flag, status)] + ByteUnits(s[1..], flag, status)
  }

  lemma {:induction false} ByteUnitsAppend(a: seq<Byte>, b: seq<Byte>, flag: Word, status: Word)
    ensures ByteUnits(a + b, flag, status) == ByteUnits(a, flag, status) + ByteUnits(b, flag, status)
    decreases |a|
  {
    if |a| > 0 {
      assert (a + b)[1..] == a[1..] + b;
      ByteUnitsAppend(a[1..], b, flag, status);
    } else {
      assert a + b == b;
    }
  }

  function NodeUnits(n: Node): (us: seq<Unit>)
  {
    if n.inner.Str? then ByteUnits(n.inner.str.s, n.inner.str.flag, n.status) else [NodeUnit(n)]
  }

  /** What a sequence of items matches, unit by unit. */
  function Units(items: seq<Node>): (us: seq<Unit>)
    decreases |items|
  {
    if |items| == 0 then [] else Units(items[..|items| - 1]) + NodeUnits(items[|items| - 1])
  }

  lemma {:induction false} UnitsAppend(a: seq<Node>, b: seq<Node>)
    ensures Units(a + b) == Units(a) + Units(b)
    decreases |b|
  {
    if |b| > 0 {
      assert (a + b)[..|a + b| - 1] == a + b[..|b| - 1];
      UnitsAppend(a, b[..|b| - 1]);
    } else {
      assert a + b == a;
    }
  }

  lemma JoinStringsUnits(a: Node, b: Node)
    requires Mergeable(a, b)
    ensures NodeUnits(JoinStrings(a, b)) == NodeUnits(a) + NodeUnits(b)
  {
    ByteUnitsAppend(a.inner.str.s, b.inner.str.s, a.inner.str.flag, a.status);
  }

  /** No two neighbours could be joined. */
  predicate NoMergeableNeighbours(items: seq<Node>) {
    forall i :: 0 <= i < |items| - 1 ==> !Mergeable(items[i], items[i + 1])
  }

  lemma UnitsSnoc(m: seq<Node>, x: Node)
    ensures Units(m + [x]) == Units(m) + NodeUnits(x)
  {
    assert (m + [x])[..|m|] == m;
  }

  lemma JoinSnocUnits(init: seq<Node>, last: Node, x: Node)
    requires Mergeable(last, x)
    ensures Units(init + [JoinStrings(last, x)]) == Units(init + [last]) + NodeUnits(x)
  {
    UnitsSnoc(init, JoinStrings(last, x));
    JoinStringsUnits(last, x);
    UnitsSnoc(init, last);
  }

  /** Merging keeps the unit sequence: the same bytes with the same flags
      and status, and the same other nodes, in order. */
  lemma {:induction false} MergeStringsUnits(items: seq<Node>)
    ensures Units(MergeStrings(items)) == Units(items)
    decreases |items|
  {
    if |items| > 0 {
      var pre := items[..|items| - 1];
      var m := MergeStrings(pre);
      var x := items[|items| - 1];
      MergeStringsUnits(pre);
      if |m| > 0 && Mergeable(m[|m| - 1], x) {
        JoinSnocUnits(m[..|m| - 1], m[|m| - 1], x);
        assert m[..|m| - 1] + [m[|m| - 1]] == m;
      } else {
        UnitsSnoc(m, x);
      }
    }
  }

  /** After merging no two neighbours could still be joined. */
  lemma {:induction false} MergeStringsSeparates(items: seq<Node>)
    ensures NoMergeableNeighbours(MergeStrings(items))
    decreases |items|
  {
    if |items| > 0 {
      var pre := items[..|items| - 1];
      var m := MergeStrings(pre);
      var x := items[|items| - 1];
      MergeStringsSeparates(pre);
      var r := MergeStrings(items);
      if |m| > 0 && Mergeable(m[|m| - 1], x) {
        assert r == m[..|m| - 1] + [JoinStrings(m[|m| - 1], x)];
        forall i | 0 <= i < |r| - 1 ensures !Mergeable(r[i], r[i + 1]) {
          assert r[i] == m[i];
          if i + 1 < |r| - 1 { assert r[i + 1] == m[i + 1]; }
        }
      } else {
        assert r == m + [x];
        forall i | 0 <= i < |r| - 1 ensures !Mergeable(r[i], r[i + 1]) {
          assert r[i] == m[i];
          if i + 1 < |r| - 1 { assert r[i + 1] == m[i + 1]; }
        }
      }
    }
  }

  /** Items with no joinable neighbours come through unchanged. */
  lemma {:induction false} MergeStringsKeepsSeparated(items: seq<Node>)
    requires NoMergeableNeighbours(items)
    ensures MergeStrings(items) == items
    decreases |items|
  {
    if |items| > 0 {
      var pre := items[..|items| - 1];
      assert NoMergeableNeighbours(pre) by {
        forall i | 0 <= i < |pre| - 1 ensures !Mergeable(pre[i], pre[i + 1]) {
          assert pre[i] == items[i] && pre[i + 1] == items[i + 1];
        }
      }
      MergeStringsKeepsSeparated(pre);
      if |pre| > 0 {
        assert !Mergeable(items[|items| - 2], items[|items| - 1]);
      }
    }
  }

  /** The bytes of a run of string nodes, in order. */
  function ConcatStrings(items: seq<Node>): (s: seq<Byte>)
    requires forall i :: 0 <= i < |items| ==> items[i].inner.Str?
    decreases |items|
  {
    if |items| == 0 then [] else ConcatStrings(items[..|items| - 1]) + items[|items| - 1].inner.str.s
  }

  /** Items that are all strings with the flags and status of the first. */
  predicate UniformStrings(items: seq<Node>) {
    && |items| >= 1
    && (forall i :: 0 <= i < |items| ==> items[i].inner.Str?)
    && (forall i :: 0 <= i < |items| ==>
          items[i].inner.str.flag == items[0].inner.str.flag && items[i].status == items[0].status)
  }

  /** Uniform strings merge into the first node carrying all their bytes. */
  lemma {:induction false} MergeUniformStrings(items: seq<Node>)
    requires UniformStrings(items)
    ensures MergeStrings(items) == [items[0].(inner := Str(items[0].inner.str.(s := ConcatStrings(items))))]
    decreases |items|
  {
    if |items| > 1 {
      var pre := items[..|items| - 1];
      assert UniformStrings(pre) by {
        forall i | 0 <= i < |pre| ensures pre[i] == items[i] { }
      }
      MergeUniformStrings(pre);
    } else {
      assert items[..0] == [];
      assert ConcatStrings(items) == items[0].inner.str.s;
    }
  }

  /** `reduce_string_list`: in a list, the non-string items are reduced,
      then neighbouring strings are merged and a list left with one item is
      replaced by that item; in an alternation every branch is reduced and
      the chain rebuilt under a root with no status bits; the bodies of
      quantifiers, anchors and groups are reduced, and so are the then and
      else parts of a conditional group; strings, classes, back references
      and the other kinds are left as they are. The source's status result
      is always 0. */
  function ReduceStringList(n: Node): (r: Node)
    decreases Size(n), 1, 0
  {
    match n.inner
    case List(_, _) =>
      var merged := MergeStrings(ReduceEach(FlattenChain(n, false), Size(n)));
      if |merged| == 1 then merged[0] else Node(n.status, ChainOf(merged, false).inner)
    case Alt(_, _) =>
      ChainOf(ReduceEach(FlattenChain(n, true), Size(n)), true)
    case Quant(Some(b), lower, upper, greedy) =>
      n.(inner := Quant(Some(ReduceStringList(b)), lower, upper, greedy))
    case Anchor(body, atype) =>
      n.(inner := Anchor(ReduceOpt(body, Size(n)), atype))
    case Bag(body, data) =>
      var data' := match data
        case IfElse(th, el) => IfElse(ReduceOpt(th, Size(n)), ReduceOpt(el, Size(n)))
        case _ => data;
      n.(inner := Bag(ReduceOpt(body, Size(n)), data'))
    case _ => n
  }

  /** An optional child, reduced when present. */
  function ReduceOpt(c: Option<Node>, bound: nat): (r: Option<Node>)
    requires OptSize(c) < bound
    ensures r.Some? <==> c.Some?
    ensures c.Some? ==> r.value == ReduceStringList(c.value)
    decreases bound, 0, 0
  {
    match c
    case None => None
    case Some(x) => Some(ReduceStringList(x))
  }

  /** The loop over the collected items: strings stay, every other item is
      reduced. */
  function ReduceEach(items: seq<Node>, bound: nat): (r: seq<Node>)
    requires forall i :: 0 <= i < |items| ==> Size(items[i]) < bound
    ensures |r| == |items|
    ensures forall i :: 0 <= i < |items| && items[i].inner.Str? ==> r[i] == items[i]
    ensures forall i :: 0 <= i < |items| && !items[i].inner.Str? ==> r[i] == ReduceStringList(items[i])
    decreases bound, 0, |items|
  {
    if |items| == 0 then []
    else [if items[0].inner.Str? then items[0] else ReduceStringList(items[0])] + ReduceEach(items[1..], bound)
  }

  /** A list of strings that all share flags and status (what the parser
      makes of "abc") becomes one string node holding all the bytes. */
  lemma ReduceMergesUniformList(n: Node)
    requires IsChain(n, false) && UniformStrings(Cars(n, false))
    ensures var first := Cars(n, false)[0];
      ReduceStringList(n) == first.(inner := Str(first.inner.str.(s := ConcatStrings(Cars(n, false)))))
  {
    FlattenChainIsCars(n, false);
    var items := FlattenChain(n, false);
    var reduced := ReduceEach(items, Size(n));
    assert reduced == items;
    MergeUniformStrings(items);
  }

  /** `c'` is the optional child `c` reduced. */
  predicate ReducedChild(c: Option<Node>, c': Option<Node>) {
    (c'.Some? <==> c.Some?) && (c.Some? ==> c'.value == ReduceStringList(c.value))
  }

  /** Reduction goes inside anchors and groups: the node keeps its kind,
      status, anchor type or group kind, and each child is reduced in
      place. Strings, classes, back references, the other kinds and a
      quantifier without a body come back unchanged. */
  lemma ReduceDescends(n: Node)
    ensures (|| n.inner.Str? || n.inner.CClass? || n.inner.BackRef? || n.inner.OtherNode?
             || (n.inner.Quant? && n.inner.qbody.None?)) ==> ReduceStringList(n) == n
    ensures var r := ReduceStringList(n);
      n.inner.Anchor? ==>
        && r.status == n.status && r.inner.Anchor? && r.inner.anchorType == n.inner.anchorType
        && ReducedChild(n.inner.anchorBody, r.inner.anchorBody)
    ensures var r := ReduceStringList(n);
      n.inner.Bag? ==>
        && r.status == n.status && r.inner.Bag? && ReducedChild(n.inner.bagBody, r.inner.bagBody)
        && (r.inner.bagData.IfElse? <==> n.inner.bagData.IfElse?)
        && (!n.inner.bagData.IfElse? ==> r.inner.bagData == n.inner.bagData)
        && (n.inner.bagData.IfElse? ==>
              && ReducedChild(n.inner.bagData.thenNode, r.inner.bagData.thenNode)
              && ReducedChild(n.inner.bagData.elseNode, r.inner.bagData.elseNode))
  {
  }

  /** A group around a list of uniform strings (what the parser makes of
      "(abc)") keeps its kind and status and ends up around one string node
      holding all the bytes. */
  lemma ReduceGroupOfUniformList(n: Node)
    requires n.inner.Bag? && n.inner.bagBody.Some?
    requires IsChain(n.inner.bagBody.value, false) && UniformStrings(Cars(n.inner.bagBody.value, false))
    ensures var items := Cars(n.inner.bagBody.value, false);
      var r := ReduceStringList(n);
      && r.status == n.status && r.inner.Bag?
      && (!n.inner.bagData.IfElse? ==> r.inner.bagData == n.inner.bagData)
      && r.inner.bagBody == Some(items[0].(inner := Str(items[0].inner.str.(s := ConcatStrings(items)))))
  {
    ReduceDescends(n);
    ReduceMergesUniformList(n.inner.bagBody.value);
  }

  /** A list whose items are strings and leaf nodes with no two joinable
      neighbours (what the parser makes of "a.b") stays a list of the same
      items under the same status. */
  lemma ReduceKeepsSeparatedList(n: Node)
    requires IsChain(n, false) && |Cars(n, false)| >= 2
    requires forall i :: 0 <= i < |Cars(n, false)| ==> Cars(n, false)[i].inner.Str? || Cars(n, false)[i].inner.OtherNode?
    requires NoMergeableNeighbours(Cars(n, false))
    ensures var r := ReduceStringList(n);
      r.status == n.status && IsChain(r, false) && Cars(r, false) == Cars(n, false)
  {
    FlattenChainIsCars(n, false);
    var items := FlattenChain(n, false);
    var reduced := ReduceEach(items, Size(n));
    forall i | 0 <= i < |items| ensures reduced[i] == items[i] {
      if !items[i].inner.Str? {
        assert ReduceStringList(items[i]) == items[i];
      }
    }
    assert reduced == items;
    MergeStringsKeepsSeparated(items);
  }

  /** The items a reduced list stands for: its cars, or the node itself
      when the list collapsed to one item. */
  function ReducedItems(r: Node): (items: seq<Node>)
  {
    if IsChain(r, false) then Cars(r, false) else [r]
  }

  /** Every merged item is a string or one of the original items. */
  lemma {:induction false} MergeStringsItems(items: seq<Node>)
    ensures forall i :: 0 <= i < |MergeStrings(items)| ==>
      MergeStrings(items)[i].inner.Str? || MergeStrings(items)[i] in items
    decreases |items|
  {
    if |items| > 0 {
      var pre := items[..|items| - 1];
      MergeStringsItems(pre);
      var m := MergeStrings(pre);
      forall i | 0 <= i < |m| && !m[i].inner.Str? ensures m[i] in items {
        assert m[i] in pre;
      }
    }
  }

  /** On a list of strings and leaves, the per-item reduction is the
      identity. */
  lemma FlatItemsUnreduced(n: Node)
    requires IsChain(n, false)
    requires forall i :: 0 <= i < |Cars(n, false)| ==> Cars(n, false)[i].inner.Str? || Cars(n, false)[i].inner.OtherNode?
    ensures ReduceEach(FlattenChain(n, false), Size(n)) == Cars(n, false)
  {
    FlattenChainIsCars(n, false);
    var items := FlattenChain(n, false);
    var reduced := ReduceEach(items, Size(n));
    forall i | 0 <= i < |items| ensures reduced[i] == items[i] {
      if !items[i].inner.Str? {
        assert ReduceStringList(items[i]) == items[i];
      }
    }
  }

  /** Merged items of strings and leaves are never chains themselves, so
      the items a reduced list stands for are the merged items. */
  lemma ReducedItemsOfMerge(status: Word, merged: seq<Node>, items: seq<Node>)
    requires merged == MergeStrings(items) && |merged| >= 1
    requires forall i :: 0 <= i < |items| ==> items[i].inner.Str? || items[i].inner.OtherNode?
    ensures ReducedItems(if |merged| == 1 then merged[0] else Node(status, ChainOf(merged, false).inner)) == merged
  {
    if |merged| == 1 {
      MergeStringsItems(items);
      assert !IsChain(merged[0], false);
    }
  }

  lemma ReduceListUnfold(n: Node)
    requires n.inner.List?
    ensures var merged := MergeStrings(ReduceEach(FlattenChain(n, false), Size(n)));
      ReduceStringList(n) == if |merged| == 1 then merged[0] else Node(n.status, ChainOf(merged, false).inner)
  {
  }

  /** A list of strings and leaf nodes reduces to items that match the same
      units in the same order, with no two neighbours left that could be
      joined; a list that survives keeps the status of the original node. */
  lemma ReduceFlatList(n: Node)
    requires IsChain(n, false)
    requires forall i :: 0 <= i < |Cars(n, false)| ==> Cars(n, false)[i].inner.Str? || Cars(n, false)[i].inner.OtherNode?
    ensures var r := ReduceStringList(n);
      && Units(ReducedItems(r)) == Units(Cars(n, false))
      && NoMergeableNeighbours(ReducedItems(r))
      && (r.inner.List? ==> r.status == n.status)
  {
    FlatItemsUnreduced(n);
    ReduceListUnfold(n);
    var items := Cars(n, false);
    var merged := MergeStrings(items);
    MergeStringsUnits(items);
    MergeStringsSeparates(items);
    ReducedItemsOfMerge(n.status, merged, items);
    assert ReducedItems(ReduceStringList(n)) == merged;
  }

  // ---------------------------------------------------------------------------
  // onig_compile (after parsing) and onig_new
  // ---------------------------------------------------------------------------

  /** What the parser leaves in its environment for the compile step. */
  datatype ParseSummary = ParseSummary(capHistory: Word, backtrackMem: Word, backrefedMem: Word, numMem: int)

  /** The fields of a compiled regex that onig_compile sets. */
  datatype CompiledRegex = CompiledRegex(
    ops: seq<Operation>, numRepeat: int, repeatRange: seq<RepeatRange>, numEmptyCheck: int,
    numCall: int, numMem: int, captureHistory: Word, pushMemStart: Word, pushMemEnd: Word,
    stackPopLevel: StackPopLevel)

  /** `push_mem_end`: groups referred back to or recorded in the capture
      history, limited to `push_mem_start` unless that says "every group". */
  function PushMemEnd(pushMemStart: Word, env: ParseSummary): (r: Word)
    ensures forall j :: 0 <= j < WORD_BITS ==>
      (r[j] <==> (MemStatusIsAllOn(pushMemStart) || pushMemStart[j]) && (env.backrefedMem[j] || env.capHistory[j]))
  {
    if MemStatusIsAllOn(pushMemStart) then Or(env.backrefedMem, env.capHistory)
    else And(pushMemStart, Or(env.backrefedMem, env.capHistory))
  }

  /** How much the matcher must undo when it backtracks. */
  function StackPopLevelFor(pushMemStart: Word, pushMemEnd: Word, numRepeat: int, numEmptyCheck: int, numCall: int)
    : (r: StackPopLevel)
    ensures r == PopAll <==> NonZero(pushMemEnd) || numRepeat != 0 || numEmptyCheck != 0 || numCall > 0
    ensures r == PopMemStart <==>
      !NonZero(pushMemEnd) && numRepeat == 0 && numEmptyCheck == 0 && numCall <= 0 && NonZero(pushMemStart)
  {
    if NonZero(pushMemEnd) || numRepeat != 0 || numEmptyCheck != 0 || numCall > 0 then PopAll
    else if NonZero(pushMemStart) then PopMemStart
    else PopFree
  }

  /** The `End` instruction every program finishes with. */
  const EndOp: Operation := Operation(OpCode.End, NoPayload)

  /** The tail of onig_compile: with the parse summary and the result of
      compiling the reduced tree (an error is passed on), it records the
      capture bookkeeping, appends `End` and picks the stack pop level. */
  function FinishCompile(env: ParseSummary, compiled: Result<RegexState>, numCall: int): (r: Result<CompiledRegex>)
    requires compiled.Ok? ==> ValidState(compiled.value)
    ensures compiled.Err? ==> r == Err(compiled.code)
    ensures compiled.Ok? ==> (
      && r.Ok?
      && r.value.ops == compiled.value.ops + [EndOp]
      && r.value.numRepeat == |r.value.repeatRange|
      && r.value.pushMemStart == Or(env.backtrackMem, env.capHistory))
  {
    match compiled
    case Err(e) => Err(e)
    case Ok(st) =>
      var start := Or(env.backtrackMem, env.capHistory);
      var end := PushMemEnd(start, env);
      Ok(CompiledRegex(st.ops + [EndOp], st.numRepeat, st.repeatRange, st.numEmptyCheck, numCall,
        env.numMem, env.capHistory, start, end,
        StackPopLevelFor(start, end, st.numRepeat, st.numEmptyCheck, numCall)))
  }

  /** What each pop level promises the matcher: at Free level nothing is
      pushed for captures and there are no repeats, empty checks or calls;
      at MemStart level group ends are not pushed; a program always ends in
      `End`. */
  lemma FinishCompilePopLevel(env: ParseSummary, compiled: Result<RegexState>, numCall: int)
    requires compiled.Ok? && ValidState(compiled.value)
    ensures var c := FinishCompile(env, compiled, numCall).value;
      && c.ops[|c.ops| - 1] == EndOp
      && (c.stackPopLevel == PopFree ==>
            c.pushMemStart == Zero() && c.pushMemEnd == Zero()
            && c.repeatRange == [] && c.numEmptyCheck == 0 && c.numCall <= 0)
      && (c.stackPopLevel == PopMemStart ==> c.pushMemEnd == Zero() && NonZero(c.pushMemStart))
      && (c.stackPopLevel == PopAll <==>
            NonZero(c.pushMemEnd) || |c.repeatRange| != 0 || c.numEmptyCheck != 0 || c.numCall > 0)
  {
    var c := FinishCompile(env, compiled, numCall).value;
    ZeroIffNoBit(c.pushMemStart);
    ZeroIffNoBit(c.pushMemEnd);
  }

  /** A group whose start is pushed and that is referred back to is also
      pushed at its end. */
  lemma PushMemEndCoversBackrefs(env: ParseSummary, j: nat)
    requires j < WORD_BITS
    requires Or(env.backtrackMem, env.capHistory)[j] && env.backrefedMem[j]
    ensures PushMemEnd(Or(env.backtrackMem, env.capHistory), env)[j]
  {
  }

  /** OnigCaseFoldType bits. */
  type CaseFold = bv32
  const CASE_FOLD_ASCII_ONLY: CaseFold := 1
  const CASE_FOLD_TURKISH_AZERI: CaseFold := 0x10_0000
  const CASE_FOLD_MULTI_CHAR: CaseFold := 0x4000_0000
  const CASE_FOLD_MIN: CaseFold := CASE_FOLD_MULTI_CHAR

  /** The settings onig_new derives before compiling. */
  datatype RegexConfig = RegexConfig(options: Options, caseFoldFlag: CaseFold)

  /** onig_new's set-up: DONT_CAPTURE_GROUP with CAPTURE_GROUP is refused;
      otherwise the syntax's options are added (SINGLELINE removed again
      under NEGATE_SINGLELINE) and IGNORECASE_IS_ASCII narrows case folding
      to ASCII. */
  function NewRegexConfig(option: Options, syntaxOptions: Options): (r: Result<RegexConfig>)
    ensures r.Err? <==> IsOptionOn(option, OPTION_DONT_CAPTURE_GROUP) && IsOptionOn(option, OPTION_CAPTURE_GROUP)
    ensures r.Err? ==> r.code == ERR_INVALID_COMBINATION_OF_OPTIONS
  {
    if option & OPTION_DONT_CAPTURE_GROUP != 0 && option & OPTION_CAPTURE_GROUP != 0 then
      Err(ERR_INVALID_COMBINATION_OF_OPTIONS)
    else
      var eff := if option & OPTION_NEGATE_SINGLELINE != 0 then (option | syntaxOptions) & !OPTION_SINGLELINE
                 else option | syntaxOptions;
      var fold := if eff & OPTION_IGNORECASE_IS_ASCII != 0 then
                    (CASE_FOLD_MIN & !(CASE_FOLD_MULTI_CHAR | CASE_FOLD_TURKISH_AZERI)) | CASE_FOLD_ASCII_ONLY
                  else CASE_FOLD_MIN;
      Ok(RegexConfig(eff, fold))
  }

  /** Every option bit other than SINGLELINE is the union of the caller's
      and the syntax's; SINGLELINE survives only without NEGATE_SINGLELINE;
      case folding is ASCII-only exactly under IGNORECASE_IS_ASCII and
      multi-character otherwise. */
  lemma NewRegexConfigSpec(option: Options, syntaxOptions: Options)
    requires NewRegexConfig(option, syntaxOptions).Ok?
    ensures var c := NewRegexConfig(option, syntaxOptions).value;
      && c.options & !OPTION_SINGLELINE == (option | syntaxOptions) & !OPTION_SINGLELINE
      && (c.options & OPTION_SINGLELINE != 0 <==>
            option & OPTION_NEGATE_SINGLELINE == 0 && (option | syntaxOptions) & OPTION_SINGLELINE != 0)
      && c.caseFoldFlag == (if (option | syntaxOptions) & OPTION_IGNORECASE_IS_ASCII != 0
                            then CASE_FOLD_ASCII_ONLY else CASE_FOLD_MULTI_CHAR)
  {
  }
}
