/** Error messages of src/regerror.rs: the message format of every error
    code, the codes whose format carries a parameter, and the rendering of
    a code with its parameter. */
module RegError {
  import opened Wrappers
  import opened Oniguruma

  /** `onig_error_code_to_format`. A format that takes a parameter is kept
      as the text around its placeholder. */
  function ErrorCodeToFormat(code: int): string
  {
    if NeedsParam(code) then
      var parts := PlaceholderParts(code);
      parts.0 + "%n" + parts.1
    else if code == MISMATCH then "mismatch"
    else if code == NO_SUPPORT_CONFIG then "no support in this configuration"
    else if code == ABORT then "abort"
    else if code == ERR_MEMORY then "fail to memory allocation"
    else if code == ERR_MATCH_STACK_LIMIT_OVER then "match-stack limit over"
    else if code == ERR_PARSE_DEPTH_LIMIT_OVER then "parse depth limit over"
    else if code == ERR_RETRY_LIMIT_IN_MATCH_OVER then "retry-limit-in-match over"
    else if code == ERR_RETRY_LIMIT_IN_SEARCH_OVER then "retry-limit-in-search over"
    else if code == ERR_SUBEXP_CALL_LIMIT_IN_SEARCH_OVER then "subexp-call-limit-in-search over"
    else if code == ERR_TYPE_BUG then "undefined type (bug)"
    else if code == ERR_PARSER_BUG then "internal parser error (bug)"
    else if code == ERR_STACK_BUG then "stack error (bug)"
    else if code == ERR_UNDEFINED_BYTECODE then "undefined bytecode (bug)"
    else if code == ERR_UNEXPECTED_BYTECODE then "unexpected bytecode (bug)"
    else if code == ERR_DEFAULT_ENCODING_IS_NOT_SET then "default multibyte-encoding is not set"
    else if code == ERR_SPECIFIED_ENCODING_CANT_CONVERT_TO_WIDE_CHAR then "can't convert to wide-char on specified multibyte-encoding"
    else if code == ERR_FAIL_TO_INITIALIZE then "fail to initialize"
    else if code == ERR_INVALID_ARGUMENT then "invalid argument"
    else if code == ERR_END_PATTERN_AT_LEFT_BRACE then "end pattern at left brace"
    else if code == ERR_END_PATTERN_AT_LEFT_BRACKET then "end pattern at left bracket"
    else if code == ERR_EMPTY_CHAR_CLASS then "empty char-class"
    else if code == ERR_PREMATURE_END_OF_CHAR_CLASS then "premature end of char-class"
    else if code == ERR_END_PATTERN_AT_ESCAPE then "end pattern at escape"
    else if code == ERR_END_PATTERN_AT_META then "end pattern at meta"
    else if code == ERR_END_PATTERN_AT_CONTROL then "end pattern at control"
    else if code == ERR_META_CODE_SYNTAX then "invalid meta-code syntax"
    else if code == ERR_CONTROL_CODE_SYNTAX then "invalid control-code syntax"
    else if code == ERR_CHAR_CLASS_VALUE_AT_END_OF_RANGE then "char-class value at end of range"
    else if code == ERR_CHAR_CLASS_VALUE_AT_START_OF_RANGE then "char-class value at start of range"
    else if code == ERR_UNMATCHED_RANGE_SPECIFIER_IN_CHAR_CLASS then "unmatched range specifier in char-class"
    else if code == ERR_TARGET_OF_REPEAT_OPERATOR_NOT_SPECIFIED then "target of repeat operator is not specified"
    else if code == ERR_TARGET_OF_REPEAT_OPERATOR_INVALID then "target of repeat operator is invalid"
    else if code == ERR_NESTED_REPEAT_OPERATOR then "nested repeat operator"
    else if code == ERR_UNMATCHED_CLOSE_PARENTHESIS then "unmatched close parenthesis"
    else if code == ERR_END_PATTERN_WITH_UNMATCHED_PARENTHESIS then "end pattern with unmatched parenthesis"
    else if code == ERR_END_PATTERN_IN_GROUP then "end pattern in group"
    else if code == ERR_UNDEFINED_GROUP_OPTION then "undefined group option"
    else if code == ERR_INVALID_GROUP_OPTION then "invalid group option"
    else if code == ERR_INVALID_POSIX_BRACKET_TYPE then "invalid POSIX bracket type"
    else if code == ERR_INVALID_LOOK_BEHIND_PATTERN then "invalid pattern in look-behind"
    else if code == ERR_INVALID_REPEAT_RANGE_PATTERN then "invalid repeat range {lower,upper}"
    else if code == ERR_TOO_BIG_NUMBER then "too big number"
    else if code == ERR_TOO_BIG_NUMBER_FOR_REPEAT_RANGE then "too big number for repeat range"
    else if code == ERR_UPPER_SMALLER_THAN_LOWER_IN_REPEAT_RANGE then "upper is smaller than lower in repeat range"
    else if code == ERR_EMPTY_RANGE_IN_CHAR_CLASS then "empty range in char class"
    else if code == ERR_MISMATCH_CODE_LENGTH_IN_CLASS_RANGE then "mismatch multibyte code length in char-class range"
    else if code == ERR_TOO_MANY_MULTI_BYTE_RANGES then "too many multibyte code ranges are specified"
    else if code == ERR_TOO_SHORT_MULTI_BYTE_STRING then "too short multibyte code string"
    else if code == ERR_TOO_BIG_BACKREF_NUMBER then "too big backref number"
    else if code == ERR_INVALID_BACKREF then "invalid backref number/name"
    else if code == ERR_NUMBERED_BACKREF_OR_CALL_NOT_ALLOWED then "numbered backref/call is not allowed. (use name)"
    else if code == ERR_TOO_MANY_CAPTURES then "too many captures"
    else if code == ERR_TOO_BIG_WIDE_CHAR_VALUE then "too big wide-char value"
    else if code == ERR_TOO_LONG_WIDE_CHAR_VALUE then "too long wide-char value"
    else if code == ERR_UNDEFINED_OPERATOR then "undefined operator"
    else if code == ERR_INVALID_CODE_POINT_VALUE then "invalid code point value"
    else if code == ERR_EMPTY_GROUP_NAME then "group name is empty"
    else if code == ERR_NEVER_ENDING_RECURSION then "never ending recursion"
    else if code == ERR_GROUP_NUMBER_OVER_FOR_CAPTURE_HISTORY then "group number is too big for capture history"
    else if code == ERR_INVALID_IF_ELSE_SYNTAX then "invalid if-else syntax"
    else if code == ERR_INVALID_ABSENT_GROUP_PATTERN then "invalid absent group pattern"
    else if code == ERR_INVALID_ABSENT_GROUP_GENERATOR_PATTERN then "invalid absent group generator pattern"
    else if code == ERR_INVALID_CALLOUT_PATTERN then "invalid callout pattern"
    else if code == ERR_INVALID_CALLOUT_NAME then "invalid callout name"
    else if code == ERR_UNDEFINED_CALLOUT_NAME then "undefined callout name"
    else if code == ERR_INVALID_CALLOUT_BODY then "invalid callout body"
    else if code == ERR_INVALID_CALLOUT_TAG_NAME then "invalid callout tag name"
    else if code == ERR_INVALID_CALLOUT_ARG then "invalid callout arg"
    else if code == ERR_NOT_SUPPORTED_ENCODING_COMBINATION then "not supported encoding combination"
    else if code == ERR_INVALID_COMBINATION_OF_OPTIONS then "invalid combination of options"
    else if code == ERR_VERY_INEFFICIENT_PATTERN then "very inefficient pattern"
    else if code == ERR_LIBRARY_IS_NOT_INITIALIZED then "library is not initialized"
    else "undefined error code"
  }

  /** `onig_is_error_code_needs_param`. */
  predicate NeedsParam(code: int) {
    code == ERR_UNDEFINED_NAME_REFERENCE || code == ERR_UNDEFINED_GROUP_REFERENCE
    || code == ERR_MULTIPLEX_DEFINED_NAME || code == ERR_MULTIPLEX_DEFINITION_NAME_CALL
    || code == ERR_INVALID_GROUP_NAME || code == ERR_INVALID_CHAR_IN_GROUP_NAME
    || code == ERR_INVALID_CHAR_PROPERTY_NAME
  }

  /** `s` contains the parameter placeholder "%n". */
  predicate HasPlaceholder(s: string) {
    exists i :: 0 <= i < |s| - 1 && s[i] == '%' && s[i + 1] == 'n'
  }

  /** `s` has no '%' at all, so no placeholder. */
  predicate NoPercent(s: string) {
    forall i :: 0 <= i < |s| ==> s[i] != '%'
  }

  /** `fmt.replace("%n", rep)`: every placeholder, scanning left to right,
      becomes `rep`. */
  function ReplacePlaceholder(s: string, rep: string): string
    decreases |s|
  {
    if |s| < 2 then s
    else if s[0] == '%' && s[1] == 'n' then rep + ReplacePlaceholder(s[2..], rep)
    else [s[0]] + ReplacePlaceholder(s[1..], rep)
  }

  /** A placeholder in the tail is one in the whole. */
  lemma PlaceholderInTail(s: string)
    requires |s| > 0 && HasPlaceholder(s[1..])
    ensures HasPlaceholder(s)
  {
    var i :| 0 <= i < |s[1..]| - 1 && s[1..][i] == '%' && s[1..][i + 1] == 'n';
    assert s[i + 1] == '%' && s[i + 2] == 'n';
  }

  /** Text without a placeholder is left alone. */
  lemma {:induction false} ReplaceWithoutPlaceholder(s: string, rep: string)
    requires !HasPlaceholder(s)
    ensures ReplacePlaceholder(s, rep) == s
    decreases |s|
  {
    if |s| >= 2 {
      if HasPlaceholder(s[1..]) {
        PlaceholderInTail(s);
      }
      ReplaceWithoutPlaceholder(s[1..], rep);
    }
  }

  /** With one placeholder between placeholder-free text, the replacement
      splices `rep` in its place. */
  lemma {:induction false} ReplaceSplice(b: string, a: string, rep: string)
    requires !HasPlaceholder(b) && !HasPlaceholder(a)
    ensures ReplacePlaceholder(b + "%n" + a, rep) == b + rep + a
    decreases |b|
  {
    var s := b + "%n" + a;
    if |b| == 0 {
      assert s[2..] == a;
      ReplaceWithoutPlaceholder(a, rep);
    } else {
      var t := b[1..] + "%n" + a;
      assert s[1..] == t;
      if |b| >= 2 {
        assert s[1] == b[1];
      }
      assert ReplacePlaceholder(s, rep) == [b[0]] + ReplacePlaceholder(t, rep);
      if HasPlaceholder(b[1..]) {
        PlaceholderInTail(b);
      }
      ReplaceSplice(b[1..], a, rep);
      assert [b[0]] + (b[1..] + rep + a) == b + rep + a;
    }
  }

  // ---------------------------------------------------------------------------
  // Parameter escaping
  // ---------------------------------------------------------------------------

  /** Characters an escaped parameter may contain: space and the visible
      ASCII characters. */
  predicate PrintableChar(c: char) {
    ' ' <= c <= '~'
  }

  predicate Printable(s: string) {
    forall i :: 0 <= i < |s| ==> PrintableChar(s[i])
  }

  /** A byte kept as itself: `is_ascii_graphic` or a space. */
  predicate KeptByte(b: Byte) {
    0x20 <= b <= 0x7e
  }

  /** The lower-case hexadecimal digit of `d`. */
  function HexDigit(d: int): (c: char)
    requires 0 <= d < 16
    ensures PrintableChar(c)
  {
    if d < 10 then ('0' as int + d) as char else ('a' as int + d - 10) as char
  }

  /** The value of a lower-case hexadecimal digit. */
  function HexValue(c: char): (d: Option<int>)
    ensures d.Some? ==> 0 <= d.value < 16
  {
    if '0' <= c <= '9' then Some(c as int - '0' as int)
    else if 'a' <= c <= 'f' then Some(c as int - 'a' as int + 10)
    else None
  }

  lemma HexDigitRoundTrip(d: int)
    requires 0 <= d < 16
    ensures HexValue(HexDigit(d)) == Some(d)
  {
  }

  /** One parameter byte as it appears in a message: itself, or `\x` and two
      lower-case hexadecimal digits. */
  function EscapeByte(b: Byte): (r: string)
    ensures Printable(r)
    ensures KeptByte(b) ==> r == [b as char]
    ensures !KeptByte(b) ==> |r| == 4 && r[0] == '\\' && r[1] == 'x'
  {
    if KeptByte(b) then [b as char]
    else ['\\', 'x', HexDigit(b / 16), HexDigit(b % 16)]
  }

  /** The escaped form of a byte that is not kept reads back as that byte. */
  lemma EscapeByteReadsBack(b: Byte)
    requires !KeptByte(b)
    ensures var r := EscapeByte(b);
      HexValue(r[2]).Some? && HexValue(r[3]).Some? && HexValue(r[2]).value * 16 + HexValue(r[3]).value == b
  {
    HexDigitRoundTrip(b / 16);
    HexDigitRoundTrip(b % 16);
  }

  /** The parameter as it appears in a message. */
  function EscapeParam(p: seq<Byte>): (r: string)
    ensures Printable(r)
    decreases |p|
  {
    if |p| == 0 then [] else EscapeByte(p[0]) + EscapeParam(p[1..])
  }

  /** A parameter of kept bytes appears as it is. */
  lemma {:induction false} EscapeKeepsPrintable(p: seq<Byte>)
    requires forall i :: 0 <= i < |p| ==> KeptByte(p[i])
    ensures EscapeParam(p) == seq(|p|, i requires 0 <= i < |p| => p[i] as char)
    decreases |p|
  {
    if |p| > 0 {
      EscapeKeepsPrintable(p[1..]);
    }
  }

  /** Escaping never shortens the parameter: each byte becomes one
      character or four. */
  lemma {:induction false} EscapeLength(p: seq<Byte>)
    ensures |EscapeParam(p)| >= |p|
  {
    if |p| > 0 {
      EscapeLength(p[1..]);
    }
  }

  // ---------------------------------------------------------------------------
  // Messages
  // ---------------------------------------------------------------------------

  /** `onig_error_code_to_str`. */
  function ErrorCodeToStr(code: int, param: Option<seq<Byte>>): string {
    var f := ErrorCodeToFormat(code);
    if NeedsParam(code) then
      match param
      case Some(p) => ReplacePlaceholder(f, EscapeParam(p))
      case None => ReplacePlaceholder(f, "")
    else f
  }

  /** The text before and after the single placeholder of a code that takes
      a parameter. */
  function PlaceholderParts(code: int): (parts: (string, string))
    requires NeedsParam(code)
  {
    if code == ERR_UNDEFINED_NAME_REFERENCE then ("undefined name <", "> reference")
    else if code == ERR_UNDEFINED_GROUP_REFERENCE then ("undefined group <", "> reference")
    else if code == ERR_MULTIPLEX_DEFINED_NAME then ("multiplex defined name <", ">")
    else if code == ERR_MULTIPLEX_DEFINITION_NAME_CALL then ("multiplex definition name <", "> call")
    else if code == ERR_INVALID_GROUP_NAME then ("invalid group name <", ">")
    else if code == ERR_INVALID_CHAR_IN_GROUP_NAME then ("invalid char in group name <", ">")
    else ("invalid character property name {", "}")
  }

  /** The text around the placeholder holds no other placeholder. */
  lemma PlaceholderPartsPlain(code: int)
    requires NeedsParam(code)
    ensures NoPercent(PlaceholderParts(code).0) && NoPercent(PlaceholderParts(code).1)
  {
    var parts := PlaceholderParts(code);
    if code == ERR_UNDEFINED_NAME_REFERENCE {
      assert NoPercent("undefined name <") && NoPercent("> reference");
    } else if code == ERR_UNDEFINED_GROUP_REFERENCE {
      assert NoPercent("undefined group <") && NoPercent("> reference");
    } else if code == ERR_MULTIPLEX_DEFINED_NAME {
      assert NoPercent("multiplex defined name <") && NoPercent(">");
    } else if code == ERR_MULTIPLEX_DEFINITION_NAME_CALL {
      assert NoPercent("multiplex definition name <") && NoPercent("> call");
    } else if code == ERR_INVALID_GROUP_NAME {
      assert NoPercent("invalid group name <") && NoPercent(">");
    } else if code == ERR_INVALID_CHAR_IN_GROUP_NAME {
      assert NoPercent("invalid char in group name <") && NoPercent(">");
    } else {
      assert NoPercent("invalid character property name {") && NoPercent("}");
    }
  }

  /** A code without a parameter renders as its format; a code with one
      renders as its format with the escaped parameter (or nothing, when
      there is none) in place of the placeholder. */
  lemma ErrorCodeToStrSplices(code: int, param: Option<seq<Byte>>)
    ensures !NeedsParam(code) ==> ErrorCodeToStr(code, param) == ErrorCodeToFormat(code)
    ensures NeedsParam(code) ==>
      var parts := PlaceholderParts(code);
      ErrorCodeToStr(code, param) == parts.0 + (if param.Some? then EscapeParam(param.value) else "") + parts.1
  {
    if NeedsParam(code) {
      var parts := PlaceholderParts(code);
      PlaceholderPartsPlain(code);
      ReplaceSplice(parts.0, parts.1, if param.Some? then EscapeParam(param.value) else "");
    }
  }

  /** The plain messages of the source's tests. */
  lemma PlainMessageExamples()
    ensures ErrorCodeToStr(MISMATCH, None) == "mismatch"
    ensures ErrorCodeToStr(ERR_MEMORY, None) == "fail to memory allocation"
    ensures ErrorCodeToStr(-9999, None) == "undefined error code"
  {
  }

  /** The parameterized messages of the source's tests. */
  lemma ParamMessageExamples()
    ensures ErrorCodeToStr(ERR_UNDEFINED_NAME_REFERENCE, Some([0x66, 0x6f, 0x6f])) == "undefined name <" + "foo" + "> reference"
    ensures ErrorCodeToStr(ERR_UNDEFINED_NAME_REFERENCE, None) == "undefined name <" + "> reference"
  {
    ErrorCodeToStrSplices(ERR_UNDEFINED_NAME_REFERENCE, Some([0x66, 0x6f, 0x6f]));
    ErrorCodeToStrSplices(ERR_UNDEFINED_NAME_REFERENCE, None);
    EscapeKeepsPrintable([0x66, 0x6f, 0x6f]);
  }
}
