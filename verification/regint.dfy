/** Internal definitions shared by the compiler and the matcher: the repeat and
    length sentinels, anchor flags, opcodes and their payloads.
    Capture-status masks and 256-bit bitsets live in MemStatus and Bitset. */
module Regint {
  import opened Bits
  import opened Oniguruma
  import opened Bitset

  /** The upper bound stored for an unbounded quantifier. */
  const INFINITE_REPEAT: int := -1

  /** True exactly for the unbounded-repeat sentinel. */
  predicate IsInfiniteRepeat(n: int) {
    n == INFINITE_REPEAT
  }

  /** The "unbounded" distance, OnigLen::MAX. */
  const INFINITE_LEN: int := 0xffff_ffff

  /** A value of the unsigned 32-bit length type. */
  predicate IsLen(d: int) {
    0 <= d <= INFINITE_LEN
  }

  // ---------------------------------------------------------------------------
  // Anchor flags
  // ---------------------------------------------------------------------------

  const ANCR_PREC_READ: int := 1
  const ANCR_PREC_READ_NOT: int := 2
  const ANCR_LOOK_BEHIND: int := 4
  const ANCR_LOOK_BEHIND_NOT: int := 8
  const ANCR_BEGIN_BUF: int := 0x10
  const ANCR_BEGIN_LINE: int := 0x20
  const ANCR_BEGIN_POSITION: int := 0x40
  const ANCR_END_BUF: int := 0x80
  const ANCR_SEMI_END_BUF: int := 0x100
  const ANCR_END_LINE: int := 0x200
  const ANCR_WORD_BOUNDARY: int := 0x400
  const ANCR_NO_WORD_BOUNDARY: int := 0x800
  const ANCR_WORD_BEGIN: int := 0x1000
  const ANCR_WORD_END: int := 0x2000
  const ANCR_ANYCHAR_INF: int := 0x4000
  const ANCR_ANYCHAR_INF_ML: int := 0x8000
  const ANCR_TEXT_SEGMENT_BOUNDARY: int := 0x1_0000
  const ANCR_NO_TEXT_SEGMENT_BOUNDARY: int := 0x2_0000

  /** Every single-flag anchor type, in bit order. */
  const ANCHOR_FLAGS: seq<int> := [
    ANCR_PREC_READ, ANCR_PREC_READ_NOT, ANCR_LOOK_BEHIND, ANCR_LOOK_BEHIND_NOT,
    ANCR_BEGIN_BUF, ANCR_BEGIN_LINE, ANCR_BEGIN_POSITION, ANCR_END_BUF,
    ANCR_SEMI_END_BUF, ANCR_END_LINE, ANCR_WORD_BOUNDARY, ANCR_NO_WORD_BOUNDARY,
    ANCR_WORD_BEGIN, ANCR_WORD_END, ANCR_ANYCHAR_INF, ANCR_ANYCHAR_INF_ML,
    ANCR_TEXT_SEGMENT_BOUNDARY, ANCR_NO_TEXT_SEGMENT_BOUNDARY]

  /** Anchor types that carry a sub-expression (the look-arounds) sort below
      BEGIN_BUF. */
  predicate AnchorHasBody(anchorType: int) {
    anchorType < ANCR_BEGIN_BUF
  }

  predicate IsWordAnchorType(anchorType: int) {
    anchorType == ANCR_WORD_BOUNDARY || anchorType == ANCR_NO_WORD_BOUNDARY
    || anchorType == ANCR_WORD_BEGIN || anchorType == ANCR_WORD_END
  }

  /** Over the single-flag anchor types, AnchorHasBody singles out exactly the
      four look-arounds and IsWordAnchorType exactly the four word anchors. */
  lemma AnchorClassification(i: nat)
    requires i < |ANCHOR_FLAGS|
    ensures AnchorHasBody(ANCHOR_FLAGS[i]) <==> i < 4
    ensures IsWordAnchorType(ANCHOR_FLAGS[i]) <==> 10 <= i < 14
  {
  }

  // ---------------------------------------------------------------------------
  // Bytecode
  // ---------------------------------------------------------------------------

  datatype OpCode =
    | Finish | End
    | Str1 | Str2 | Str3 | Str4 | Str5 | StrN
    | StrMb2n1 | StrMb2n2 | StrMb2n3 | StrMb2n | StrMb3n | StrMbn
    | CClass | CClassMb | CClassMix | CClassNot | CClassMbNot | CClassMixNot
    | AnyChar | AnyCharMl | AnyCharStar | AnyCharMlStar | AnyCharStarPeekNext | AnyCharMlStarPeekNext
    | WordOp | WordAscii | NoWord | NoWordAscii | WordBoundary | NoWordBoundary | WordBegin | WordEnd
    | TextSegmentBoundary
    | BeginBuf | EndBuf | BeginLine | EndLine | SemiEndBuf | CheckPosition
    | BackRef1 | BackRef2 | BackRefN | BackRefNIc | BackRefMulti | BackRefMultiIc
    | BackRefWithLevel | BackRefWithLevelIc | BackRefCheck | BackRefCheckWithLevel
    | MemStart | MemStartPush | MemEndPush | MemEndPushRec | MemEnd | MemEndRec
    | Fail | Jump | Push | PushSuper | Pop | PopToMark | PushOrJumpExact1 | PushIfPeekNext
    | Repeat | RepeatNg | RepeatInc | RepeatIncNg
    | EmptyCheckStart | EmptyCheckEnd | EmptyCheckEndMemst | EmptyCheckEndMemstPush
    | Move | StepBackStart | StepBackNext | CutToMark | Mark | SaveVal | UpdateVar
    | Call | Return | CalloutContents | CalloutName

  /** The 16-byte inline buffer of an `Exact` payload. */
  type Exact16 = s: seq<Byte> | |s| == 16 witness seq(16, _ => 0)

  /** The operand part of an instruction. Only the payloads the compiler and
      matcher parts of this model build or read are listed. `Exact` is the
      fixed 16-byte buffer of the short literal opcodes; `ExactN` holds a
      single-byte literal and its length; `ExactLenN` holds a multi-byte
      literal, its byte count `n` and its character width `len`. Code-range
      payloads hold the serialized range buffer (CodeRange.Serialize). */
  datatype Payload =
    | NoPayload
    | Exact(buf: Exact16)
    | ExactN(s: seq<Byte>, n: int)
    | ExactLenN(s: seq<Byte>, n: int, len: int)
    | CClassPayload(bsp: BitSet)
    | CClassMbPayload(mb: seq<Byte>)
    | CClassMixPayload(mb: seq<Byte>, bsp: BitSet)
    | MemoryStart(num: int)
    | MemoryEnd(num: int)
    | JumpPayload(addr: int)
    | PushPayload(addr: int)
    | PopToMarkPayload(id: int)
    | RepeatPayload(id: int, addr: int)
    | RepeatIncPayload(id: int)
    | EmptyCheckStartPayload(mem: int)
    | EmptyCheckEndPayload(mem: int, emptyStatusMem: Word)
    | MarkPayload(id: int, savePos: bool)
    | CutToMarkPayload(id: int, restorePos: bool)

  /** The literal opcodes: STR_1 .. STR_N and the multi-byte STR_MB*. */
  predicate IsStrOpcode(op: OpCode) {
    op.Str1? || op.Str2? || op.Str3? || op.Str4? || op.Str5? || op.StrN?
    || op.StrMb2n1? || op.StrMb2n2? || op.StrMb2n3? || op.StrMb2n? || op.StrMb3n? || op.StrMbn?
  }

  datatype Operation = Operation(opcode: OpCode, payload: Payload)

  datatype StackPopLevel = PopFree | PopMemStart | PopAll

  datatype OptimizeType = OptNone | OptStr | OptStrFast | OptStrFastStepForward | OptMap

  const FLAG_NCCLASS_NOT: int := 1
  const FLAG_NCCLASS_SHARE: int := 2

  /** Bounds of one counted repeat, and the index of the first body op. */
  datatype RepeatRange = RepeatRange(lower: int, upper: int, uOffset: int)
}
