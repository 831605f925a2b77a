/** The error type of src/error.rs: error codes grouped into variants, the
    original code kept for each, and the text each variant displays. */
module Errors {
  import opened Wrappers
  import opened Oniguruma
  import RegError

  datatype RegexError =
    | Memory
    | MatchStackLimitOver
    | RetryLimitInMatchOver
    | RetryLimitInSearchOver
    | SubexpCallLimitOver
    | TimeLimitOver
    | ParseDepthLimitOver
    | Syntax(code: int, message: string)
    | InvalidArgument
    | InternalBug(code: int, message: string)
    | NotInitialized
    | Encoding(code: int, message: string)
    | Other(code: int)

  /** The codes reported as engine bugs. */
  predicate IsInternalBugCode(c: int) {
    c == ERR_TYPE_BUG || c == ERR_PARSER_BUG || c == ERR_STACK_BUG
    || c == ERR_UNDEFINED_BYTECODE || c == ERR_UNEXPECTED_BYTECODE
  }

  /** The codes reported as encoding errors. */
  predicate IsEncodingCode(c: int) {
    c == ERR_DEFAULT_ENCODING_IS_NOT_SET || c == ERR_SPECIFIED_ENCODING_CANT_CONVERT_TO_WIDE_CHAR
    || c == ERR_NOT_SUPPORTED_ENCODING_COMBINATION
  }

  /** The codes with a variant of their own. */
  predicate IsUnitCode(c: int) {
    c == ERR_MEMORY || c == ERR_MATCH_STACK_LIMIT_OVER || c == ERR_RETRY_LIMIT_IN_MATCH_OVER
    || c == ERR_RETRY_LIMIT_IN_SEARCH_OVER || c == ERR_SUBEXP_CALL_LIMIT_IN_SEARCH_OVER
    || c == ERR_TIME_LIMIT_OVER || c == ERR_PARSE_DEPTH_LIMIT_OVER || c == ERR_INVALID_ARGUMENT
    || c == ERR_LIBRARY_IS_NOT_INITIALIZED
  }

  /** `From<i32> for RegexError`. The first matching arm wins, so -402 (an
      encoding error) and -500 (not initialized), although in the
      pattern-error range, keep their own variants. */
  function FromCode(code: int): (e: RegexError)
    ensures e.Syntax? <==> IsPatternError(code) && !IsEncodingCode(code) && !IsUnitCode(code)
    ensures e.InternalBug? <==> IsInternalBugCode(code)
    ensures e.Encoding? <==> IsEncodingCode(code)
    ensures e.Other? <==> !IsUnitCode(code) && !IsInternalBugCode(code) && !IsEncodingCode(code) && !IsPatternError(code)
  {
    if code == ERR_MEMORY then Memory
    else if code == ERR_MATCH_STACK_LIMIT_OVER then MatchStackLimitOver
    else if code == ERR_RETRY_LIMIT_IN_MATCH_OVER then RetryLimitInMatchOver
    else if code == ERR_RETRY_LIMIT_IN_SEARCH_OVER then RetryLimitInSearchOver
    else if code == ERR_SUBEXP_CALL_LIMIT_IN_SEARCH_OVER then SubexpCallLimitOver
    else if code == ERR_TIME_LIMIT_OVER then TimeLimitOver
    else if code == ERR_PARSE_DEPTH_LIMIT_OVER then ParseDepthLimitOver
    else if code == ERR_INVALID_ARGUMENT then InvalidArgument
    else if code == ERR_LIBRARY_IS_NOT_INITIALIZED then NotInitialized
    else if IsInternalBugCode(code) then InternalBug(code, RegError.ErrorCodeToFormat(code))
    else if IsEncodingCode(code) then Encoding(code, RegError.ErrorCodeToFormat(code))
    else if IsPatternError(code) then Syntax(code, RegError.ErrorCodeToFormat(code))
    else Other(code)
  }

  /** `RegexError::code`. */
  function Code(e: RegexError): int {
    match e
    case Memory => ERR_MEMORY
    case MatchStackLimitOver => ERR_MATCH_STACK_LIMIT_OVER
    case RetryLimitInMatchOver => ERR_RETRY_LIMIT_IN_MATCH_OVER
    case RetryLimitInSearchOver => ERR_RETRY_LIMIT_IN_SEARCH_OVER
    case SubexpCallLimitOver => ERR_SUBEXP_CALL_LIMIT_IN_SEARCH_OVER
    case TimeLimitOver => ERR_TIME_LIMIT_OVER
    case ParseDepthLimitOver => ERR_PARSE_DEPTH_LIMIT_OVER
    case InvalidArgument => ERR_INVALID_ARGUMENT
    case NotInitialized => ERR_LIBRARY_IS_NOT_INITIALIZED
    case Syntax(c, _) => c
    case InternalBug(c, _) => c
    case Encoding(c, _) => c
    case Other(c) => c
  }

  /** Every code survives the trip through the error type. */
  lemma CodeRoundTrip(code: int)
    ensures Code(FromCode(code)) == code
  {
  }

  /** The errors `FromCode` produces: each variant's code in its class and
      each message the code's format. */
  predicate Canonical(e: RegexError) {
    match e
    case Syntax(c, m) => IsPatternError(c) && !IsEncodingCode(c) && !IsUnitCode(c) && m == RegError.ErrorCodeToFormat(c)
    case InternalBug(c, m) => IsInternalBugCode(c) && m == RegError.ErrorCodeToFormat(c)
    case Encoding(c, m) => IsEncodingCode(c) && m == RegError.ErrorCodeToFormat(c)
    case Other(c) => !IsUnitCode(c) && !IsInternalBugCode(c) && !IsEncodingCode(c) && !IsPatternError(c)
    case _ => true
  }

  /** The error type is a faithful wrapper: an error built from a code
      rebuilds from its code, and only such errors do. */
  lemma FromCodeOfCode(e: RegexError)
    ensures FromCode(Code(e)) == e <==> Canonical(e)
  {
  }

  // ---------------------------------------------------------------------------
  // Display
  // ---------------------------------------------------------------------------

  /** The decimal digit of `d`. */
  function Digit(d: nat): char
    requires d < 10
  {
    ('0' as int + d) as char
  }

  /** The decimal numeral of `n`, without leading zeros. */
  function NatToDecimal(n: nat): (s: string)
    ensures |s| > 0 && forall i :: 0 <= i < |s| ==> '0' <= s[i] <= '9'
    ensures n > 0 ==> s[0] != '0'
    decreases n
  {
    if n < 10 then [Digit(n)] else NatToDecimal(n / 10) + [Digit(n % 10)]
  }

  /** The value of a decimal numeral. */
  function DecimalValue(s: string): nat
    requires forall i :: 0 <= i < |s| ==> '0' <= s[i] <= '9'
    decreases |s|
  {
    if |s| == 0 then 0 else 10 * DecimalValue(s[..|s| - 1]) + (s[|s| - 1] as int - '0' as int)
  }

  lemma {:induction false} DecimalRoundTrip(n: nat)
    ensures DecimalValue(NatToDecimal(n)) == n
    decreases n
  {
    if n >= 10 {
      var s := NatToDecimal(n);
      DecimalRoundTrip(n / 10);
      assert s[..|s| - 1] == NatToDecimal(n / 10);
    }
  }

  /** `{}` of an i32. */
  function IntToDecimal(i: int): (s: string)
    ensures |s| > 0 && (s[0] == '-' <==> i < 0)
  {
    if i < 0 then "-" + NatToDecimal(-i) else NatToDecimal(i)
  }

  /** Reads back a numeral `IntToDecimal` writes. */
  function ParseDecimal(s: string): (r: Option<int>) {
    if |s| > 0 && s[0] == '-' then
      if |s| > 1 && forall i :: 1 <= i < |s| ==> '0' <= s[i] <= '9' then Some(-(DecimalValue(s[1..]) as int)) else None
    else if |s| > 0 && forall i :: 0 <= i < |s| ==> '0' <= s[i] <= '9' then Some(DecimalValue(s))
    else None
  }

  /** A numeral without a sign reads back as its value. */
  lemma UnsignedReadsBack(n: nat)
    ensures ParseDecimal(NatToDecimal(n)) == Some(n as int)
  {
    DecimalRoundTrip(n);
  }

  /** A numeral after a minus sign reads back as the negated value. */
  lemma SignedReadsBack(n: nat)
    ensures ParseDecimal("-" + NatToDecimal(n)) == Some(-(n as int))
  {
    var s := NatToDecimal(n);
    var t := "-" + s;
    DecimalRoundTrip(n);
    assert t[1..] == s;
    assert forall i :: 1 <= i < |t| ==> t[i] == s[i - 1];
  }

  lemma IntDecimalRoundTrip(i: int)
    ensures ParseDecimal(IntToDecimal(i)) == Some(i)
  {
    if i < 0 {
      SignedReadsBack(-i);
    } else {
      UnsignedReadsBack(i);
    }
  }

  /** `Display for RegexError`. */
  function Display(e: RegexError): string {
    match e
    case Memory => "memory allocation failed"
    case MatchStackLimitOver => "match-stack limit over"
    case RetryLimitInMatchOver => "retry-limit-in-match over"
    case RetryLimitInSearchOver => "retry-limit-in-search over"
    case SubexpCallLimitOver => "subexp-call-limit-in-search over"
    case TimeLimitOver => "time limit over"
    case ParseDepthLimitOver => "parse depth limit over"
    case Syntax(_, m) => "syntax error: " + m
    case InvalidArgument => "invalid argument"
    case InternalBug(_, m) => "internal error: " + m
    case NotInitialized => "library is not initialized"
    case Encoding(_, m) => "encoding error: " + m
    case Other(c) => "error code " + IntToDecimal(c)
  }

  /** The text of an error built from a code names its class. */
  lemma DisplayNamesClass(code: int)
    ensures var e := FromCode(code);
      && (e.Syntax? ==> Display(e) == "syntax error: " + RegError.ErrorCodeToFormat(code))
      && (e.InternalBug? ==> Display(e) == "internal error: " + RegError.ErrorCodeToFormat(code))
      && (e.Encoding? ==> Display(e) == "encoding error: " + RegError.ErrorCodeToFormat(code))
  {
    var e := FromCode(code);
    if e.Syntax? || e.InternalBug? || e.Encoding? {
      assert e.message == RegError.ErrorCodeToFormat(code);
    }
  }

  /** An unclassified code can be read back from its text. */
  lemma DisplayOtherReadsBack(code: int)
    ensures var d := Display(Other(code));
      |d| > 11 && d[..11] == "error code " && ParseDecimal(d[11..]) == Some(code)
  {
    IntDecimalRoundTrip(code);
    assert Display(Other(code))[11..] == IntToDecimal(code);
  }

  /** The cases of the source's tests. */
  lemma ErrorExamples()
    ensures FromCode(ERR_MEMORY) == Memory && Display(Memory) == "memory allocation failed"
    ensures FromCode(ERR_PREMATURE_END_OF_CHAR_CLASS).Syntax?
    ensures Code(FromCode(ERR_PREMATURE_END_OF_CHAR_CLASS)) == ERR_PREMATURE_END_OF_CHAR_CLASS
    ensures FromCode(ERR_PARSER_BUG).InternalBug?
    ensures FromCode(ERR_NOT_SUPPORTED_ENCODING_COMBINATION).Encoding?
    ensures FromCode(-9999) == Other(-9999)
    ensures Display(InvalidArgument) == "invalid argument"
  {
  }
}
