/** Public constants of the engine (option bits, result and error codes),
    the option bit helpers, and the match region with its capture tree. */
module Oniguruma {
  import opened Wrappers

  /** OnigOptionType is an unsigned 32-bit mask. */
  type Options = bv32

  const OPTION_NONE: Options := 0
  const OPTION_IGNORECASE: Options := 1
  const OPTION_EXTEND: Options := 2
  const OPTION_MULTILINE: Options := 4
  const OPTION_SINGLELINE: Options := 8
  const OPTION_FIND_LONGEST: Options := 16
  const OPTION_FIND_NOT_EMPTY: Options := 32
  const OPTION_NEGATE_SINGLELINE: Options := 64
  const OPTION_DONT_CAPTURE_GROUP: Options := 128
  const OPTION_CAPTURE_GROUP: Options := 256
  const OPTION_NOTBOL: Options := 512
  const OPTION_NOTEOL: Options := 1024
  const OPTION_POSIX_REGION: Options := 2048
  const OPTION_CHECK_VALIDITY_OF_STRING: Options := 4096
  const OPTION_IGNORECASE_IS_ASCII: Options := 0x8000
  const OPTION_WORD_IS_ASCII: Options := 0x1_0000
  const OPTION_DIGIT_IS_ASCII: Options := 0x2_0000
  const OPTION_SPACE_IS_ASCII: Options := 0x4_0000
  const OPTION_POSIX_IS_ASCII: Options := 0x8_0000
  const OPTION_TEXT_SEGMENT_EXTENDED_GRAPHEME_CLUSTER: Options := 0x10_0000
  const OPTION_TEXT_SEGMENT_WORD: Options := 0x20_0000
  const OPTION_NOT_BEGIN_STRING: Options := 0x40_0000
  const OPTION_NOT_END_STRING: Options := 0x80_0000
  const OPTION_NOT_BEGIN_POSITION: Options := 0x100_0000
  const OPTION_CALLBACK_EACH_MATCH: Options := 0x200_0000
  const OPTION_MATCH_WHOLE_STRING: Options := 0x400_0000

  /** A byte (u8). */
  type Byte = b: int | 0 <= b < 0x100

  /** An OnigCodePoint (u32). */
  type CodePoint = c: int | 0 <= c <= 0xffff_ffff

  // Character types (ONIGENC_CTYPE_*)
  const CTYPE_NEWLINE: nat := 0
  const CTYPE_ALPHA: nat := 1
  const CTYPE_BLANK: nat := 2
  const CTYPE_CNTRL: nat := 3
  const CTYPE_DIGIT: nat := 4
  const CTYPE_GRAPH: nat := 5
  const CTYPE_LOWER: nat := 6
  const CTYPE_PRINT: nat := 7
  const CTYPE_PUNCT: nat := 8
  const CTYPE_SPACE: nat := 9
  const CTYPE_UPPER: nat := 10
  const CTYPE_XDIGIT: nat := 11
  const CTYPE_WORD: nat := 12
  const CTYPE_ALNUM: nat := 13
  const CTYPE_ASCII: nat := 14
  const MAX_STD_CTYPE: nat := 14

  // Limits
  const MAX_REPEAT_NUM: int := 100000
  const MAX_MULTI_BYTE_RANGES_NUM: int := 10000
  const MAX_BACKREF_NUM: int := 1000
  const I32_MAX: int := 0x7fff_ffff
  const I32_MIN: int := -0x8000_0000
  const U32_MAX: int := 0xffff_ffff

  // Normal results
  const NORMAL: int := 0
  const MISMATCH: int := -1
  const NO_SUPPORT_CONFIG: int := -2
  const ABORT: int := -3

  // Internal errors
  const ERR_MEMORY: int := -5
  const ERR_TYPE_BUG: int := -6
  const ERR_PARSER_BUG: int := -11
  const ERR_STACK_BUG: int := -12
  const ERR_UNDEFINED_BYTECODE: int := -13
  const ERR_UNEXPECTED_BYTECODE: int := -14
  const ERR_MATCH_STACK_LIMIT_OVER: int := -15
  const ERR_PARSE_DEPTH_LIMIT_OVER: int := -16
  const ERR_RETRY_LIMIT_IN_MATCH_OVER: int := -17
  const ERR_RETRY_LIMIT_IN_SEARCH_OVER: int := -18
  const ERR_SUBEXP_CALL_LIMIT_IN_SEARCH_OVER: int := -19
  const ERR_TIME_LIMIT_OVER: int := -20
  const ERR_DEFAULT_ENCODING_IS_NOT_SET: int := -21
  const ERR_SPECIFIED_ENCODING_CANT_CONVERT_TO_WIDE_CHAR: int := -22
  const ERR_FAIL_TO_INITIALIZE: int := -23
  const ERR_INVALID_ARGUMENT: int := -30

  // Syntax errors
  const ERR_END_PATTERN_AT_LEFT_BRACE: int := -100
  const ERR_END_PATTERN_AT_LEFT_BRACKET: int := -101
  const ERR_EMPTY_CHAR_CLASS: int := -102
  const ERR_PREMATURE_END_OF_CHAR_CLASS: int := -103
  const ERR_END_PATTERN_AT_ESCAPE: int := -104
  const ERR_END_PATTERN_AT_META: int := -105
  const ERR_END_PATTERN_AT_CONTROL: int := -106
  const ERR_META_CODE_SYNTAX: int := -108
  const ERR_CONTROL_CODE_SYNTAX: int := -109
  const ERR_CHAR_CLASS_VALUE_AT_END_OF_RANGE: int := -110
  const ERR_CHAR_CLASS_VALUE_AT_START_OF_RANGE: int := -111
  const ERR_UNMATCHED_RANGE_SPECIFIER_IN_CHAR_CLASS: int := -112
  const ERR_TARGET_OF_REPEAT_OPERATOR_NOT_SPECIFIED: int := -113
  const ERR_TARGET_OF_REPEAT_OPERATOR_INVALID: int := -114
  const ERR_NESTED_REPEAT_OPERATOR: int := -115
  const ERR_UNMATCHED_CLOSE_PARENTHESIS: int := -116
  const ERR_END_PATTERN_WITH_UNMATCHED_PARENTHESIS: int := -117
  const ERR_END_PATTERN_IN_GROUP: int := -118
  const ERR_UNDEFINED_GROUP_OPTION: int := -119
  const ERR_INVALID_GROUP_OPTION: int := -120
  const ERR_INVALID_POSIX_BRACKET_TYPE: int := -121
  const ERR_INVALID_LOOK_BEHIND_PATTERN: int := -122
  const ERR_INVALID_REPEAT_RANGE_PATTERN: int := -123
  const ERR_TOO_BIG_NUMBER: int := -200
  const ERR_TOO_BIG_NUMBER_FOR_REPEAT_RANGE: int := -201
  const ERR_UPPER_SMALLER_THAN_LOWER_IN_REPEAT_RANGE: int := -202
  const ERR_EMPTY_RANGE_IN_CHAR_CLASS: int := -203
  const ERR_MISMATCH_CODE_LENGTH_IN_CLASS_RANGE: int := -204
  const ERR_TOO_MANY_MULTI_BYTE_RANGES: int := -205
  const ERR_TOO_SHORT_MULTI_BYTE_STRING: int := -206
  const ERR_TOO_BIG_BACKREF_NUMBER: int := -207
  const ERR_INVALID_BACKREF: int := -208
  const ERR_NUMBERED_BACKREF_OR_CALL_NOT_ALLOWED: int := -209
  const ERR_TOO_MANY_CAPTURES: int := -210
  const ERR_TOO_LONG_WIDE_CHAR_VALUE: int := -212
  const ERR_UNDEFINED_OPERATOR: int := -213
  const ERR_EMPTY_GROUP_NAME: int := -214
  const ERR_INVALID_GROUP_NAME: int := -215
  const ERR_INVALID_CHAR_IN_GROUP_NAME: int := -216
  const ERR_UNDEFINED_NAME_REFERENCE: int := -217
  const ERR_UNDEFINED_GROUP_REFERENCE: int := -218
  const ERR_MULTIPLEX_DEFINED_NAME: int := -219
  const ERR_MULTIPLEX_DEFINITION_NAME_CALL: int := -220
  const ERR_NEVER_ENDING_RECURSION: int := -221
  const ERR_GROUP_NUMBER_OVER_FOR_CAPTURE_HISTORY: int := -222
  const ERR_INVALID_CHAR_PROPERTY_NAME: int := -223
  const ERR_INVALID_IF_ELSE_SYNTAX: int := -224
  const ERR_INVALID_ABSENT_GROUP_PATTERN: int := -225
  const ERR_INVALID_ABSENT_GROUP_GENERATOR_PATTERN: int := -226
  const ERR_INVALID_CALLOUT_PATTERN: int := -227
  const ERR_INVALID_CALLOUT_NAME: int := -228
  const ERR_UNDEFINED_CALLOUT_NAME: int := -229
  const ERR_INVALID_CALLOUT_BODY: int := -230
  const ERR_INVALID_CALLOUT_TAG_NAME: int := -231
  const ERR_INVALID_CALLOUT_ARG: int := -232

  // Encoding and other errors
  const ERR_INVALID_CODE_POINT_VALUE: int := -400
  const ERR_TOO_BIG_WIDE_CHAR_VALUE: int := -401
  const ERR_NOT_SUPPORTED_ENCODING_COMBINATION: int := -402
  const ERR_INVALID_COMBINATION_OF_OPTIONS: int := -403
  const ERR_TOO_MANY_USER_DEFINED_OBJECTS: int := -404
  const ERR_TOO_LONG_PROPERTY_NAME: int := -405
  const ERR_VERY_INEFFICIENT_PATTERN: int := -406
  const ERR_LIBRARY_IS_NOT_INITIALIZED: int := -500

  /** Sentinel for a capture slot that did not participate. */
  const REGION_NOTPOS: int := -1

  const TRAVERSE_CALLBACK_AT_FIRST: int := 1
  const TRAVERSE_CALLBACK_AT_LAST: int := 2

  /** Sets the bits of `opt`; no other bit changes. */
  function OptionOn(options: Options, opt: Options): (r: Options)
    ensures r & opt == opt
    ensures r & !opt == options & !opt
  {
    options | opt
  }

  /** Clears the bits of `opt`; no other bit changes. */
  function OptionOff(options: Options, opt: Options): (r: Options)
    ensures r & opt == 0
    ensures r & !opt == options & !opt
  {
    options & !opt
  }

  /** True when `options` and `opt` share at least one bit. */
  predicate IsOptionOn(options: Options, opt: Options) {
    options & opt != 0
  }

  /** Turning a non-empty option on makes it test as on, turning it off makes it
      test as off, and the two operations undo each other on bits not yet set. */
  lemma OptionOnOffLaws(options: Options, opt: Options)
    requires opt != 0
    ensures IsOptionOn(OptionOn(options, opt), opt)
    ensures !IsOptionOn(OptionOff(options, opt), opt)
    ensures options & opt == 0 ==> OptionOff(OptionOn(options, opt), opt) == options
  {
  }

  /** Pattern (syntax) errors are the codes in (-1000, -100]. */
  predicate IsPatternError(ecode: int) {
    ecode <= -100 && ecode > -1000
  }

  /** A node of the capture history tree. */
  datatype CaptureTree = CaptureTree(group: int, beg: int, end: int, children: seq<CaptureTree>)

  /** OnigRegion: per-group start and end offsets. */
  datatype Region = Region(capacity: int, numRegs: int, beg: seq<int>, end: seq<int>,
                           historyRoot: Option<CaptureTree>)

  /** The invariant `new`, `init` and `resize` establish and `clear` needs:
      both offset arrays hold exactly `numRegs` entries. */
  predicate ValidRegion(r: Region) {
    0 <= r.numRegs && |r.beg| == r.numRegs && |r.end| == r.numRegs
  }

  /** A region with no slots and no history. */
  function NewRegion(): (r: Region)
    ensures ValidRegion(r) && r.numRegs == 0 && r.capacity == 0
    ensures r.beg == [] && r.end == [] && r.historyRoot.None?
  {
    Region(0, 0, [], [], None)
  }

  /** Resets a region in place to the empty one. */
  function InitRegion(r: Region): (r': Region)
    ensures r' == NewRegion()
  {
    Region(0, 0, [], [], None)
  }

  /** Marks every used slot as not matched and drops the history. */
  function ClearRegion(r: Region): (r': Region)
    requires ValidRegion(r)
    ensures ValidRegion(r') && r'.numRegs == r.numRegs && r'.capacity == r.capacity
    ensures forall i :: 0 <= i < r'.numRegs ==> r'.beg[i] == REGION_NOTPOS && r'.end[i] == REGION_NOTPOS
    ensures r'.historyRoot.None?
  {
    r.(beg := seq(r.numRegs, _ => REGION_NOTPOS), end := seq(r.numRegs, _ => REGION_NOTPOS),
       historyRoot := None)
  }

  /** Truncates or extends a sequence to `n` entries, padding with `fill`. */
  function ResizeSeq(s: seq<int>, n: nat, fill: int): (r: seq<int>)
    ensures |r| == n
    ensures forall i :: 0 <= i < n && i < |s| ==> r[i] == s[i]
    ensures forall i :: |s| <= i < n ==> r[i] == fill
  {
    if n <= |s| then s[..n] else s + seq(n - |s|, _ => fill)
  }

  /** Sets both arrays to `n` entries, keeping existing ones and filling new
      slots with REGION_NOTPOS; `numRegs` and `allocated` become `n`. */
  function ResizeRegion(r: Region, n: nat): (r': Region)
    ensures ValidRegion(r') && r'.numRegs == n && r'.capacity == n
    ensures forall i :: 0 <= i < n && i < |r.beg| ==> r'.beg[i] == r.beg[i]
    ensures forall i :: 0 <= i < n && i < |r.end| ==> r'.end[i] == r.end[i]
    ensures forall i :: |r.beg| <= i < n ==> r'.beg[i] == REGION_NOTPOS
    ensures forall i :: |r.end| <= i < n ==> r'.end[i] == REGION_NOTPOS
    ensures r'.historyRoot == r.historyRoot
  {
    r.(beg := ResizeSeq(r.beg, n, REGION_NOTPOS), end := ResizeSeq(r.end, n, REGION_NOTPOS),
       capacity := n, numRegs := n)
  }

  /** `n` unmatched slots, no history. */
  function BlankRegion(n: nat): (r: Region)
    ensures ValidRegion(r) && r.numRegs == n
  {
    Region(n, n, seq(n, _ => REGION_NOTPOS), seq(n, _ => REGION_NOTPOS), None)
  }

  /** The pair used before every match attempt (resize to num_mem+1, then
      clear) gives the same blank region whatever the region held before. */
  lemma ResizeThenClearIsBlank(r: Region, n: nat)
    ensures ClearRegion(ResizeRegion(r, n)) == BlankRegion(n)
  {
  }
}
