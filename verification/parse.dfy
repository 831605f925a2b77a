/** Helpers of the pattern parser (regparse.rs): the number scanners, the
    interval `{n,m}` reader, quantifier classification, control-escape mapping and the capture
    counter. The parser fetches the pattern one character at a time; here the
    pattern is the sequence of those character codes and a position is an
    index into it. Syntax switches are passed in as booleans. */
module Parse {
  import opened Wrappers
  import opened Oniguruma
  import opened Regint

  // ---------------------------------------------------------------------------
  // Digits
  // ---------------------------------------------------------------------------

  /** The radixes of the scanners: decimal, hexadecimal and octal. */
  predicate IsRadix(radix: nat) { radix == 8 || radix == 10 || radix == 16 }

  /** A digit of the radix: `0-9`, `0-7`, or `0-9a-fA-F`. */
  predicate IsRadixDigit(c: int, radix: nat) {
    if radix == 16 then 0x30 <= c <= 0x39 || 0x61 <= c <= 0x66 || 0x41 <= c <= 0x46
    else if radix == 8 then 0x30 <= c <= 0x37
    else 0x30 <= c <= 0x39
  }

  /** `digitval` / `xdigitval` / `odigitval`. */
  function DigitVal(c: int, radix: nat): (v: nat)
    requires IsRadix(radix) && IsRadixDigit(c, radix)
    ensures v < radix
  {
    if 0x61 <= c <= 0x66 then c - 0x61 + 10
    else if 0x41 <= c <= 0x46 then c - 0x41 + 10
    else c - 0x30
  }

  /** Every code in `codes[p..q]` is a digit of the radix. */
  predicate AllDigits(codes: seq<CodePoint>, p: nat, q: nat, radix: nat)
    requires p <= q <= |codes|
  {
    forall i :: p <= i < q ==> IsRadixDigit(codes[i], radix)
  }

  /** The value of the digits `codes[p..q]` read after the value `acc`, most
      significant digit first. */
  function DigitsValue(acc: nat, codes: seq<CodePoint>, p: nat, q: nat, radix: nat): (v: nat)
    requires p <= q <= |codes| && IsRadix(radix) && AllDigits(codes, p, q, radix)
    decreases q - p
  {
    if p == q then acc else DigitsValue(acc * radix + DigitVal(codes[p], radix), codes, p + 1, q, radix)
  }

  /** Reading more digits never lowers the value. */
  lemma {:induction false} DigitsValueGrows(acc: nat, codes: seq<CodePoint>, p: nat, q: nat, radix: nat)
    requires p <= q <= |codes| && IsRadix(radix) && AllDigits(codes, p, q, radix)
    ensures DigitsValue(acc, codes, p, q, radix) >= acc
    decreases q - p
  {
    if p < q {
      DigitsValueGrows(acc * radix + DigitVal(codes[p], radix), codes, p + 1, q, radix);
    }
  }

  /** One more digit multiplies by the radix and adds the digit. */
  lemma {:induction false} DigitsValueSnoc(acc: nat, codes: seq<CodePoint>, p: nat, q: nat, radix: nat)
    requires p <= q < |codes| && IsRadix(radix) && AllDigits(codes, p, q + 1, radix)
    ensures DigitsValue(acc, codes, p, q + 1, radix)
      == DigitsValue(acc, codes, p, q, radix) * radix + DigitVal(codes[q], radix)
    decreases q - p
  {
    if p < q {
      DigitsValueSnoc(acc * radix + DigitVal(codes[p], radix), codes, p + 1, q, radix);
    }
  }

  /** The value only depends on the digits read. */
  lemma {:induction false} DigitsValueLocal(acc: nat, codes: seq<CodePoint>, other: seq<CodePoint>, p: nat, q: nat, radix: nat)
    requires p <= q <= |codes| && q <= |other| && IsRadix(radix) && AllDigits(codes, p, q, radix)
    requires forall i :: p <= i < q ==> codes[i] == other[i]
    ensures AllDigits(other, p, q, radix)
    ensures DigitsValue(acc, codes, p, q, radix) == DigitsValue(acc, other, p, q, radix)
    decreases q - p
  {
    if p < q {
      DigitsValueLocal(acc * radix + DigitVal(codes[p], radix), codes, other, p + 1, q, radix);
    }
  }

  /** The overflow test of the scanners, `(limit - v) / radix < acc`, holds
      exactly when `acc * radix + v` exceeds `limit`. */
  lemma OverflowTest(limit: nat, v: nat, radix: nat, acc: nat)
    requires IsRadix(radix) && v <= limit
    ensures (limit - v) / radix < acc <==> acc * radix + v > limit
  {
    var q := (limit - v) / radix;
    assert limit - v == q * radix + (limit - v) % radix;
    if radix == 8 {
      assert q < acc ==> acc * 8 >= q * 8 + 8;
      assert q >= acc ==> acc * 8 <= q * 8;
    } else if radix == 10 {
      assert q < acc ==> acc * 10 >= q * 10 + 10;
      assert q >= acc ==> acc * 10 <= q * 10;
    } else {
      assert q < acc ==> acc * 16 >= q * 16 + 16;
      assert q >= acc ==> acc * 16 <= q * 16;
    }
  }

  /** The number of consecutive digits of the radix from `p`, before `end`. */
  function DigitRun(codes: seq<CodePoint>, p: nat, end: nat, radix: nat): (k: nat)
    requires end <= |codes|
    ensures k > 0 ==> p + k <= end
    ensures p <= end ==> p + k <= end && AllDigits(codes, p, p + k, radix)
    ensures p + k < end ==> !IsRadixDigit(codes[p + k], radix)
    decreases end - p
  {
    if p >= end || !IsRadixDigit(codes[p], radix) then 0 else 1 + DigitRun(codes, p + 1, end, radix)
  }

  // ---------------------------------------------------------------------------
  // scan_number
  // ---------------------------------------------------------------------------

  /** A scanned value and the position after it. */
  datatype Scanned = Scanned(value: int, next: nat)

  /** The loop of `scan_number` from `p` with `num` read so far. */
  function ScanNumberFrom(codes: seq<CodePoint>, p: nat, end: nat, num: nat): (r: Scanned)
    requires end <= |codes| && num <= I32_MAX
    ensures p <= end ==> p <= r.next <= end
    ensures -1 <= r.value <= I32_MAX
    ensures r.next == p ==> r.value == num
    decreases end - p
  {
    if p >= end then Scanned(num, p)
    else if IsRadixDigit(codes[p], 10) then
      var v := DigitVal(codes[p], 10);
      if (I32_MAX - v) / 10 < num then Scanned(-1, p + 1)
      else ScanNumberFrom(codes, p + 1, end, num * 10 + v)
    else Scanned(num, p)
  }

  /** `scan_number`: the decimal value of the digits at `p` and the position
      after them, or -1 once the value exceeds `i32::MAX`. */
  function ScanNumber(codes: seq<CodePoint>, p: nat, end: nat): (r: Scanned)
    requires end <= |codes|
    ensures p >= end ==> r == Scanned(0, p)
    ensures p <= end ==> p <= r.next <= end
    ensures r.next == p ==> r.value == 0
  {
    ScanNumberFrom(codes, p, end, 0)
  }

  lemma {:induction false} ScanNumberFromSpec(codes: seq<CodePoint>, p: nat, end: nat, num: nat)
    requires p <= end <= |codes| && num <= I32_MAX
    ensures var k := DigitRun(codes, p, end, 10);
      var v := DigitsValue(num, codes, p, p + k, 10);
      var r := ScanNumberFrom(codes, p, end, num);
      && (v <= I32_MAX ==> r == Scanned(v, p + k))
      && (v > I32_MAX ==> r.value == -1 && p < r.next <= p + k)
    decreases end - p
  {
    if p < end && IsRadixDigit(codes[p], 10) {
      var d := DigitVal(codes[p], 10);
      ScanNumberStep(codes, p, end, num);
      if (I32_MAX - d) / 10 >= num {
        ScanNumberFromSpec(codes, p + 1, end, num * 10 + d);
      }
    }
  }

  /** One digit read by `scan_number`: it either overflows, and then so does
      the whole run, or moves on with the accumulated value. */
  lemma ScanNumberStep(codes: seq<CodePoint>, p: nat, end: nat, num: nat)
    requires p < end <= |codes| && num <= I32_MAX && IsRadixDigit(codes[p], 10)
    ensures var d := DigitVal(codes[p], 10);
      var k := DigitRun(codes, p, end, 10);
      var v := DigitsValue(num, codes, p, p + k, 10);
      && k == 1 + DigitRun(codes, p + 1, end, 10)
      && ((I32_MAX - d) / 10 < num ==> v > I32_MAX && ScanNumberFrom(codes, p, end, num) == Scanned(-1, p + 1))
      && ((I32_MAX - d) / 10 >= num ==> (num * 10 + d <= I32_MAX
            && v == DigitsValue(num * 10 + d, codes, p + 1, p + k, 10)
            && ScanNumberFrom(codes, p, end, num) == ScanNumberFrom(codes, p + 1, end, num * 10 + d)))
  {
    var d := DigitVal(codes[p], 10);
    var k := DigitRun(codes, p, end, 10);
    OverflowTest(I32_MAX, d, 10, num);
    DigitsValueGrows(num * 10 + d, codes, p + 1, p + k, 10);
  }

  /** `scan_number` reads the maximal run of decimal digits at `p` and returns
      its value, or -1 when that value exceeds `i32::MAX` (having stopped
      inside the run); with no digit it returns 0 and does not move. */
  lemma ScanNumberSpec(codes: seq<CodePoint>, p: nat, end: nat)
    requires p <= end <= |codes|
    ensures var k := DigitRun(codes, p, end, 10);
      var v := DigitsValue(0, codes, p, p + k, 10);
      var r := ScanNumber(codes, p, end);
      && (v <= I32_MAX ==> r == Scanned(v, p + k))
      && (v > I32_MAX ==> r.value == -1 && p < r.next <= p + k)
      && (k == 0 ==> r == Scanned(0, p))
  {
    ScanNumberFromSpec(codes, p, end, 0);
  }

  // ---------------------------------------------------------------------------
  // scan_hexadecimal_number / scan_octal_number
  // ---------------------------------------------------------------------------

  /** The outcome of the code scanner's loop. */
  datatype CodeScan = CodeScanned(count: int, code: nat, next: nat) | CodeTooBig

  /** The loop of the hexadecimal and octal scanners from `p`, `n` digits and
      the value `code` read so far. */
  function ScanCodeFrom(codes: seq<CodePoint>, p: nat, end: nat, radix: nat, n: int, maxlen: int, code: nat): (r: CodeScan)
    requires end <= |codes| && IsRadix(radix) && code <= U32_MAX
    decreases end - p
  {
    if p >= end || n >= maxlen then CodeScanned(n, code, p)
    else if IsRadixDigit(codes[p], radix) then
      var v := DigitVal(codes[p], radix);
      if (U32_MAX - v) / radix < code then CodeTooBig
      else ScanCodeFrom(codes, p + 1, end, radix, n + 1, maxlen, code * radix + v)
    else CodeScanned(n, code, p)
  }

  /** The number of digits the code scanner reads: the digit run, cut to the
      `budget` of digits still allowed. */
  function CodeRun(codes: seq<CodePoint>, p: nat, end: nat, radix: nat, budget: int): (k: nat)
    requires end <= |codes|
    ensures k <= DigitRun(codes, p, end, radix)
    ensures budget <= 0 ==> k == 0
    ensures budget > 0 ==> k <= budget
  {
    var run := DigitRun(codes, p, end, radix);
    if budget <= 0 then 0 else if run <= budget then run else budget
  }

  lemma {:induction false} ScanCodeFromSpec(codes: seq<CodePoint>, p: nat, end: nat, radix: nat, n: int, maxlen: int, code: nat)
    requires p <= end <= |codes| && IsRadix(radix) && code <= U32_MAX
    ensures var k := CodeRun(codes, p, end, radix, maxlen - n);
      var v := DigitsValue(code, codes, p, p + k, radix);
      var r := ScanCodeFrom(codes, p, end, radix, n, maxlen, code);
      && (v > U32_MAX ==> r == CodeTooBig)
      && (v <= U32_MAX ==> r == CodeScanned(n + k, v, p + k))
    decreases end - p
  {
    if p < end && n < maxlen && IsRadixDigit(codes[p], radix) {
      var d := DigitVal(codes[p], radix);
      ScanCodeStep(codes, p, end, radix, n, maxlen, code);
      if (U32_MAX - d) / radix >= code {
        ScanCodeFromSpec(codes, p + 1, end, radix, n + 1, maxlen, code * radix + d);
      }
    } else {
      ScanCodeStop(codes, p, end, radix, n, maxlen, code);
    }
  }

  /** The code scanner stops where the budget, the input or the digits end. */
  lemma ScanCodeStop(codes: seq<CodePoint>, p: nat, end: nat, radix: nat, n: int, maxlen: int, code: nat)
    requires p <= end <= |codes| && IsRadix(radix) && code <= U32_MAX
    requires !(p < end && n < maxlen && IsRadixDigit(codes[p], radix))
    ensures CodeRun(codes, p, end, radix, maxlen - n) == 0
    ensures ScanCodeFrom(codes, p, end, radix, n, maxlen, code) == CodeScanned(n, code, p)
  {
  }

  /** One digit read by the code scanner: it either overflows, and then so
      does the whole run, or moves on with the accumulated value. */
  lemma ScanCodeStep(codes: seq<CodePoint>, p: nat, end: nat, radix: nat, n: int, maxlen: int, code: nat)
    requires p < end <= |codes| && IsRadix(radix) && code <= U32_MAX
    requires n < maxlen && IsRadixDigit(codes[p], radix)
    ensures var d := DigitVal(codes[p], radix);
      var k := CodeRun(codes, p, end, radix, maxlen - n);
      var v := DigitsValue(code, codes, p, p + k, radix);
      && k == 1 + CodeRun(codes, p + 1, end, radix, maxlen - (n + 1))
      && ((U32_MAX - d) / radix < code ==> v > U32_MAX && ScanCodeFrom(codes, p, end, radix, n, maxlen, code) == CodeTooBig)
      && ((U32_MAX - d) / radix >= code ==> (code * radix + d <= U32_MAX
            && v == DigitsValue(code * radix + d, codes, p + 1, p + k, radix)
            && ScanCodeFrom(codes, p, end, radix, n, maxlen, code)
               == ScanCodeFrom(codes, p + 1, end, radix, n + 1, maxlen, code * radix + d)))
  {
    var d := DigitVal(codes[p], radix);
    var k := CodeRun(codes, p, end, radix, maxlen - n);
    assert k == 1 + CodeRun(codes, p + 1, end, radix, maxlen - (n + 1));
    OverflowTest(U32_MAX, d, radix, code);
    DigitsValueGrows(code * radix + d, codes, p + 1, p + k, radix);
  }

  /** A code point scanned and the position after it. */
  datatype CodeAt = CodeAt(code: CodePoint, next: nat)

  /** The scanners' common tail: TOO_BIG_NUMBER on overflow, then
      INVALID_CODE_POINT_VALUE with fewer than `minlen` digits; the code is
      only delivered on success. */
  function ScanCode(codes: seq<CodePoint>, p: nat, end: nat, radix: nat, minlen: int, maxlen: int): (r: Result<CodeAt>)
    requires p <= end <= |codes| && IsRadix(radix)
    ensures var k := CodeRun(codes, p, end, radix, maxlen);
      var v := DigitsValue(0, codes, p, p + k, radix);
      r == if v > U32_MAX then Err(ERR_TOO_BIG_NUMBER)
           else if k < minlen then Err(ERR_INVALID_CODE_POINT_VALUE)
           else Ok(CodeAt(v, p + k))
  {
    ScanCodeFromSpec(codes, p, end, radix, 0, maxlen, 0);
    match ScanCodeFrom(codes, p, end, radix, 0, maxlen, 0)
    case CodeTooBig => Err(ERR_TOO_BIG_NUMBER)
    case CodeScanned(n, code, next) =>
      if n < minlen then Err(ERR_INVALID_CODE_POINT_VALUE) else Ok(CodeAt(code, next))
  }

  /** `scan_hexadecimal_number`: at most `maxlen` hexadecimal digits. */
  function ScanHexadecimalNumber(codes: seq<CodePoint>, p: nat, end: nat, minlen: int, maxlen: int): (r: Result<CodeAt>)
    requires p <= end <= |codes|
    ensures r.Ok? ==> p + minlen <= r.value.next <= p + (if maxlen < 0 then 0 else maxlen)
    ensures r.Ok? ==> (p <= r.value.next <= end && AllDigits(codes, p, r.value.next, 16)
      && r.value.code == DigitsValue(0, codes, p, r.value.next, 16))
    ensures r.Err? ==> r.code == ERR_TOO_BIG_NUMBER || r.code == ERR_INVALID_CODE_POINT_VALUE
  {
    ScanCode(codes, p, end, 16, minlen, maxlen)
  }

  /** `scan_octal_number`: at most `maxlen` octal digits. */
  function ScanOctalNumber(codes: seq<CodePoint>, p: nat, end: nat, minlen: int, maxlen: int): (r: Result<CodeAt>)
    requires p <= end <= |codes|
    ensures r.Ok? ==> p + minlen <= r.value.next <= p + (if maxlen < 0 then 0 else maxlen)
    ensures r.Ok? ==> (p <= r.value.next <= end && AllDigits(codes, p, r.value.next, 8)
      && r.value.code == DigitsValue(0, codes, p, r.value.next, 8))
    ensures r.Err? ==> r.code == ERR_TOO_BIG_NUMBER || r.code == ERR_INVALID_CODE_POINT_VALUE
  {
    ScanCode(codes, p, end, 8, minlen, maxlen)
  }

  // ---------------------------------------------------------------------------
  // Writing numbers, for the round trips
  // ---------------------------------------------------------------------------

  /** The digit character of value `v`: `0-9`, then lower-case `a-f`. */
  function DigitChar(v: nat, radix: nat): (c: CodePoint)
    requires IsRadix(radix) && v < radix
    ensures IsRadixDigit(c, radix) && DigitVal(c, radix) == v
  {
    if v < 10 then 0x30 + v else 0x61 + (v - 10)
  }

  /** The digits of `n` in the radix, most significant first, without
      leading zeros. */
  function RadixDigits(n: nat, radix: nat): (s: seq<CodePoint>)
    requires IsRadix(radix)
    ensures |s| >= 1 && AllDigits(s, 0, |s|, radix)
    ensures DigitsValue(0, s, 0, |s|, radix) == n
    decreases n
  {
    if n < radix then
      var s := [DigitChar(n, radix)];
      assert DigitsValue(0, s, 0, 1, radix) == DigitsValue(DigitVal(s[0], radix), s, 1, 1, radix);
      s
    else
      var front := RadixDigits(n / radix, radix);
      var s := front + [DigitChar(n % radix, radix)];
      DigitsValueLocal(0, front, s, 0, |front|, radix);
      DigitsValueSnoc(0, s, 0, |front|, radix);
      s
  }

  /** The digit run over a block of digits followed by a non-digit is the
      block. */
  lemma {:induction false} DigitRunOfDigits(codes: seq<CodePoint>, p: nat, end: nat, radix: nat, k: nat)
    requires p + k <= end <= |codes|
    requires forall i :: p <= i < p + k ==> IsRadixDigit(codes[i], radix)
    requires p + k < end ==> !IsRadixDigit(codes[p + k], radix)
    ensures DigitRun(codes, p, end, radix) == k
    decreases k
  {
    if k > 0 {
      DigitRunOfDigits(codes, p + 1, end, radix, k - 1);
    }
  }

  /** The value of digits copied elsewhere is the same. */
  lemma {:induction false} DigitsValueShift(acc: nat, codes: seq<CodePoint>, p: nat, other: seq<CodePoint>, p2: nat, k: nat, radix: nat)
    requires p + k <= |codes| && p2 + k <= |other| && IsRadix(radix) && AllDigits(codes, p, p + k, radix)
    requires other[p2..p2 + k] == codes[p..p + k]
    ensures AllDigits(other, p2, p2 + k, radix)
    ensures DigitsValue(acc, other, p2, p2 + k, radix) == DigitsValue(acc, codes, p, p + k, radix)
    decreases k
  {
    forall i | p2 <= i < p2 + k
      ensures other[i] == codes[i - p2 + p]
    {
      assert other[p2..p2 + k][i - p2] == other[i];
      assert codes[p..p + k][i - p2] == codes[i - p2 + p];
    }
    if k > 0 {
      assert other[p2 + 1..p2 + k] == other[p2..p2 + k][1..];
      assert codes[p + 1..p + k] == codes[p..p + k][1..];
      DigitsValueShift(acc * radix + DigitVal(codes[p], radix), codes, p + 1, other, p2 + 1, k - 1, radix);
    }
  }

  /** A block of decimal digits of value `n`, found at `p` and followed by a
      non-digit or the end, scans back as `n` and leaves the position right
      after it. */
  lemma ScanDigitsReads(codes: seq<CodePoint>, p: nat, ds: seq<CodePoint>, n: nat)
    requires n <= I32_MAX && AllDigits(ds, 0, |ds|, 10) && DigitsValue(0, ds, 0, |ds|, 10) == n
    requires p + |ds| <= |codes| && codes[p..p + |ds|] == ds
    requires p + |ds| < |codes| ==> !IsRadixDigit(codes[p + |ds|], 10)
    ensures ScanNumber(codes, p, |codes|) == Scanned(n, p + |ds|)
  {
    var k := |ds|;
    assert ds[0..k] == ds;
    DigitsValueShift(0, ds, 0, codes, p, k, 10);
    DigitRunOfDigits(codes, p, |codes|, 10, k);
    ScanNumberFromSpec(codes, p, |codes|, 0);
  }

  /** The decimal digits of `n` at `p`, followed by a non-digit or the end,
      scan back as `n`. */
  lemma ScanNumberReads(codes: seq<CodePoint>, p: nat, n: nat)
    requires n <= I32_MAX
    requires p + |RadixDigits(n, 10)| <= |codes|
    requires codes[p..p + |RadixDigits(n, 10)|] == RadixDigits(n, 10)
    requires p + |RadixDigits(n, 10)| < |codes| ==> !IsRadixDigit(codes[p + |RadixDigits(n, 10)|], 10)
    ensures ScanNumber(codes, p, |codes|) == Scanned(n, p + |RadixDigits(n, 10)|)
  {
    ScanDigitsReads(codes, p, RadixDigits(n, 10), n);
  }

  /** Writing a number in decimal and scanning it back gives the number and
      stops right after its digits, for every value up to `i32::MAX`. */
  lemma ScanNumberRoundTrip(n: nat, rest: seq<CodePoint>)
    requires n <= I32_MAX
    requires |rest| > 0 ==> !IsRadixDigit(rest[0], 10)
    ensures var codes := RadixDigits(n, 10) + rest;
      ScanNumber(codes, 0, |codes|) == Scanned(n, |RadixDigits(n, 10)|)
  {
    var ds := RadixDigits(n, 10);
    var codes := ds + rest;
    assert codes[0..|ds|] == ds;
    ScanNumberReads(codes, 0, n);
  }

  /** Writing a code in hexadecimal and scanning it back, with a `maxlen` that
      lets every digit through, gives the code. */
  lemma ScanHexadecimalRoundTrip(code: CodePoint, rest: seq<CodePoint>, minlen: int, maxlen: int)
    requires |rest| > 0 ==> !IsRadixDigit(rest[0], 16)
    requires minlen <= |RadixDigits(code, 16)| <= maxlen
    ensures var codes := RadixDigits(code, 16) + rest;
      ScanHexadecimalNumber(codes, 0, |codes|, minlen, maxlen) == Ok(CodeAt(code, |RadixDigits(code, 16)|))
  {
    var ds := RadixDigits(code, 16);
    var codes := ds + rest;
    DigitRunOfDigits(codes, 0, |codes|, 16, |ds|);
    DigitsValueLocal(0, ds, codes, 0, |ds|, 16);
  }

  // ---------------------------------------------------------------------------
  // conv_backslash_value
  // ---------------------------------------------------------------------------

  /** The value of the escape `\c` for the letter `c` (conv_backslash_value):
      with control escapes on, `n t r f a b e` give LF, TAB, CR, FF, BEL, BS
      and ESC, and `v` gives VT only when the `\v` escape is on as well; every
      other code is its own value. */
  function ConvBackslashValue(c: CodePoint, escControlChars: bool, escVVtab: bool): (r: CodePoint)
  {
    if !escControlChars then c
    else if c == 0x6e then 0x0a
    else if c == 0x74 then 0x09
    else if c == 0x72 then 0x0d
    else if c == 0x66 then 0x0c
    else if c == 0x61 then 0x07
    else if c == 0x62 then 0x08
    else if c == 0x65 then 0x1b
    else if c == 0x76 && escVVtab then 0x0b
    else c
  }

  /** The control escapes the parser knows, as (letter, value) pairs. */
  const CONTROL_ESCAPES: seq<(CodePoint, CodePoint)> :=
    [(0x6e, 0x0a), (0x74, 0x09), (0x72, 0x0d), (0x66, 0x0c),
     (0x61, 0x07), (0x62, 0x08), (0x65, 0x1b), (0x76, 0x0b)]

  /** The escape letter of a control value, the inverse of the table. */
  function EscapeLetter(v: CodePoint): (r: Option<CodePoint>)
  {
    if v == 0x0a then Some(0x6e)
    else if v == 0x09 then Some(0x74)
    else if v == 0x0d then Some(0x72)
    else if v == 0x0c then Some(0x66)
    else if v == 0x07 then Some(0x61)
    else if v == 0x08 then Some(0x62)
    else if v == 0x1b then Some(0x65)
    else if v == 0x0b then Some(0x76)
    else None
  }

  /** A code changes exactly when it is a letter of the table whose escape is
      enabled, and then it becomes the table's value, which maps back to the
      letter. */
  lemma ConvBackslashValueSpec(c: CodePoint, escControlChars: bool, escVVtab: bool)
    ensures var r := ConvBackslashValue(c, escControlChars, escVVtab);
      && (r != c <==> (escControlChars && (c != 0x76 || escVVtab)
                       && exists i :: 0 <= i < |CONTROL_ESCAPES| && CONTROL_ESCAPES[i].0 == c))
      && (r != c ==> exists i :: 0 <= i < |CONTROL_ESCAPES| && CONTROL_ESCAPES[i] == (c, r))
      && (r != c ==> EscapeLetter(r) == Some(c))
  {
    var r := ConvBackslashValue(c, escControlChars, escVVtab);
    if exists i :: 0 <= i < |CONTROL_ESCAPES| && CONTROL_ESCAPES[i].0 == c {
      var i :| 0 <= i < |CONTROL_ESCAPES| && CONTROL_ESCAPES[i].0 == c;
      assert i == 0 || i == 1 || i == 2 || i == 3 || i == 4 || i == 5 || i == 6 || i == 7;
    }
    if r != c {
      var i := if c == 0x6e then 0 else if c == 0x74 then 1 else if c == 0x72 then 2
        else if c == 0x66 then 3 else if c == 0x61 then 4 else if c == 0x62 then 5
        else if c == 0x65 then 6 else 7;
      assert CONTROL_ESCAPES[i] == (c, r);
    }
  }

  /** Every value of the table is produced by its letter once both escape
      switches are on. */
  lemma EscapeLetterRoundTrip(v: CodePoint)
    requires EscapeLetter(v).Some?
    ensures ConvBackslashValue(EscapeLetter(v).value, true, true) == v
  {
  }

  // ---------------------------------------------------------------------------
  // quantifier_type_num
  // ---------------------------------------------------------------------------

  /** The classification of simple quantifiers (quantifier_type_num): 0, 1, 2
      for greedy `?`, `*`, `+`, then 3, 4, 5 for their lazy forms, -1 for any
      other bounds. */
  function QuantifierTypeNum(lower: int, upper: int, greedy: bool): (t: int)
    ensures -1 <= t <= 5
  {
    var base :=
      if lower == 0 && upper == 1 then 0
      else if lower == 0 && upper == INFINITE_REPEAT then 1
      else if lower == 1 && upper == INFINITE_REPEAT then 2
      else -1;
    if base < 0 then -1 else if greedy then base else base + 3
  }

  /** The quantifier each number stands for: (lower, upper, greedy). */
  function QuantOfType(t: int): (q: (int, int, bool))
    requires 0 <= t <= 5
  {
    var greedy := t < 3;
    var b := if greedy then t else t - 3;
    if b == 0 then (0, 1, greedy)
    else if b == 1 then (0, INFINITE_REPEAT, greedy)
    else (1, INFINITE_REPEAT, greedy)
  }

  /** The classification and QuantOfType are inverse: a quantifier gets number
      t >= 0 exactly when it is the one t stands for. */
  lemma QuantifierTypeNumInverse(lower: int, upper: int, greedy: bool, t: int)
    requires 0 <= t <= 5
    ensures QuantifierTypeNum(lower, upper, greedy) == t <==> (lower, upper, greedy) == QuantOfType(t)
  {
  }

  /** Every other quantifier gets -1. */
  lemma QuantifierTypeNumOther(lower: int, upper: int, greedy: bool)
    ensures QuantifierTypeNum(lower, upper, greedy) == -1
      <==> !(lower == 0 && upper == 1) && !(lower == 0 && upper == INFINITE_REPEAT)
           && !(lower == 1 && upper == INFINITE_REPEAT)
  {
  }

  // ---------------------------------------------------------------------------
  // add_mem_entry
  // ---------------------------------------------------------------------------

  /** Registers one more capture group (ParseEnv::add_mem_entry): the new
      group number, or TOO_MANY_CAPTURES when it would exceed `maxCapture`
      (0 means no limit; the limit is a process-wide setting in the source). */
  function AddMemEntry(numMem: nat, maxCapture: int): (r: Result<nat>)
  {
    var need := numMem + 1;
    if need > maxCapture && maxCapture != 0 then Err(ERR_TOO_MANY_CAPTURES) else Ok(need)
  }

  /** `k` registrations in a row, stopping at the first failure. */
  function AddMemEntries(numMem: nat, maxCapture: int, k: nat): (r: Result<nat>)
    decreases k
  {
    if k == 0 then Ok(numMem)
    else match AddMemEntry(numMem, maxCapture)
      case Err(e) => Err(e)
      case Ok(n) => AddMemEntries(n, maxCapture, k - 1)
  }

  /** Starting from `numMem` groups, `k` more registrations all succeed iff
      the limit is off or leaves room for them, and the groups are then
      numbered consecutively up to numMem + k. */
  lemma {:induction false} AddMemEntriesSpec(numMem: nat, maxCapture: int, k: nat)
    ensures AddMemEntries(numMem, maxCapture, k).Ok? <==> (k == 0 || maxCapture == 0 || numMem + k <= maxCapture)
    ensures AddMemEntries(numMem, maxCapture, k).Ok? ==> AddMemEntries(numMem, maxCapture, k).value == numMem + k
    ensures AddMemEntries(numMem, maxCapture, k).Err? ==> AddMemEntries(numMem, maxCapture, k).code == ERR_TOO_MANY_CAPTURES
    decreases k
  {
    if k > 0 && AddMemEntry(numMem, maxCapture).Ok? {
      AddMemEntriesSpec(numMem + 1, maxCapture, k - 1);
    }
  }

  // ---------------------------------------------------------------------------
  // fetch_interval
  // ---------------------------------------------------------------------------

  /** The syntax switches fetch_interval reads: invalid intervals are literal
      text, `{,n}` is allowed, the braces are escaped (`\{n,m\}`), and the
      escape character. */
  datatype IntervalSyntax = IntervalSyntax(allowInvalid: bool, allowLowAbbrev: bool, escBraceInterval: bool, esc: CodePoint)

  /** A read interval with the position after its closing brace (the source
      returns 2 when `fixed`, 0 otherwise), or the verdict that the brace is
      an ordinary character (the source returns 1) with the position reached. */
  datatype Interval =
    | Interval(lower: int, upper: int, fixed: bool, next: nat)
    | NotInterval(next: nat)

  const LPAREN: CodePoint := 0x28
  const RPAREN: CodePoint := 0x29
  const COMMA: CodePoint := 0x2c
  const VBAR: CodePoint := 0x7c
  const RBRACE: CodePoint := 0x7d

  /** What a malformed interval turns into. */
  function InvalidInterval(syn: IntervalSyntax, next: nat): (r: Result<Interval>)
    ensures r.Ok? <==> syn.allowInvalid
  {
    if syn.allowInvalid then Ok(NotInterval(next)) else Err(ERR_INVALID_REPEAT_RANGE_PATTERN)
  }

  /** A bound scanned by `scan_number` that does not fit a repeat range. */
  predicate BoundTooBig(v: int) { v < 0 || v > MAX_REPEAT_NUM }

  /** The closing brace (or escaped closing brace) at `q`, and the final
      order check of the bounds. */
  function CloseInterval(codes: seq<CodePoint>, q: nat, end: nat, syn: IntervalSyntax, low: int, up: int): (r: Result<Interval>)
    requires q <= end <= |codes|
    ensures r.Err? ==> r.code == ERR_INVALID_REPEAT_RANGE_PATTERN || r.code == ERR_UPPER_SMALLER_THAN_LOWER_IN_REPEAT_RANGE
    ensures r.Ok? && r.value.NotInterval? ==> syn.allowInvalid
    ensures r.Ok? && r.value.Interval? ==>
      (&& r.value.lower == low && r.value.upper == up
       && (up == INFINITE_REPEAT || low <= up)
       && (r.value.fixed <==> low == up)
       && q < r.value.next <= end && codes[r.value.next - 1] == RBRACE)
  {
    if q >= end then InvalidInterval(syn, q)
    else if syn.escBraceInterval then
      if codes[q] != syn.esc || q + 1 >= end then InvalidInterval(syn, q + 1)
      else if codes[q + 1] != RBRACE then InvalidInterval(syn, q + 2)
      else if up != INFINITE_REPEAT && low > up then Err(ERR_UPPER_SMALLER_THAN_LOWER_IN_REPEAT_RANGE)
      else Ok(Interval(low, up, up == low, q + 2))
    else if codes[q] != RBRACE then InvalidInterval(syn, q + 1)
    else if up != INFINITE_REPEAT && low > up then Err(ERR_UPPER_SMALLER_THAN_LOWER_IN_REPEAT_RANGE)
    else Ok(Interval(low, up, up == low, q + 1))
  }

  /** Reads `n}`, `n,m}`, `n,}` or `,m}` after an opening brace at `p - 1`
      (fetch_interval). */
  function FetchInterval(codes: seq<CodePoint>, p: nat, end: nat, syn: IntervalSyntax): (r: Result<Interval>)
    requires p <= end <= |codes|
    ensures r.Err? ==> r.code in {ERR_END_PATTERN_AT_LEFT_BRACE, ERR_TOO_BIG_NUMBER_FOR_REPEAT_RANGE,
                                  ERR_INVALID_REPEAT_RANGE_PATTERN, ERR_UPPER_SMALLER_THAN_LOWER_IN_REPEAT_RANGE}
    ensures r.Ok? && r.value.NotInterval? ==> syn.allowInvalid
    ensures r.Ok? && r.value.Interval? ==>
      (&& 0 <= r.value.lower <= MAX_REPEAT_NUM
       && (r.value.upper == INFINITE_REPEAT || r.value.lower <= r.value.upper <= MAX_REPEAT_NUM)
       && (r.value.fixed <==> r.value.lower == r.value.upper)
       && p < r.value.next <= end && codes[r.value.next - 1] == RBRACE)
  {
    if p >= end then
      if syn.allowInvalid then Ok(NotInterval(p)) else Err(ERR_END_PATTERN_AT_LEFT_BRACE)
    else if !syn.allowInvalid && (codes[p] == RPAREN || codes[p] == LPAREN || codes[p] == VBAR) then
      Err(ERR_END_PATTERN_AT_LEFT_BRACE)
    else
      var lowScan := ScanNumber(codes, p, end);
      if BoundTooBig(lowScan.value) then Err(ERR_TOO_BIG_NUMBER_FOR_REPEAT_RANGE)
      else if lowScan.next == p && !syn.allowLowAbbrev then InvalidInterval(syn, p)
      else
        var nonLow := lowScan.next == p;
        FetchUpper(codes, lowScan.next, end, syn, if nonLow then 0 else lowScan.value, nonLow)
  }

  /** The rest of fetch_interval once the lower bound `low` is read (or left
      out, `nonLow`) and `q` is after it: an optional `,m`, then the brace. */
  function FetchUpper(codes: seq<CodePoint>, q: nat, end: nat, syn: IntervalSyntax, low: int, nonLow: bool): (r: Result<Interval>)
    requires q <= end <= |codes| && 0 <= low <= MAX_REPEAT_NUM
    ensures r.Err? ==> r.code in {ERR_TOO_BIG_NUMBER_FOR_REPEAT_RANGE,
                                  ERR_INVALID_REPEAT_RANGE_PATTERN, ERR_UPPER_SMALLER_THAN_LOWER_IN_REPEAT_RANGE}
    ensures r.Ok? && r.value.NotInterval? ==> syn.allowInvalid
    ensures r.Ok? && r.value.Interval? ==>
      (&& r.value.lower == low
       && (r.value.upper == INFINITE_REPEAT || low <= r.value.upper <= MAX_REPEAT_NUM)
       && (r.value.fixed <==> low == r.value.upper)
       && q < r.value.next <= end && codes[r.value.next - 1] == RBRACE)
  {
    if q >= end then InvalidInterval(syn, q)
    else if codes[q] == COMMA then
      var upScan := ScanNumber(codes, q + 1, end);
      if BoundTooBig(upScan.value) then Err(ERR_TOO_BIG_NUMBER_FOR_REPEAT_RANGE)
      else if upScan.next == q + 1 && nonLow then InvalidInterval(syn, q + 1)
      else
        var up := if upScan.next == q + 1 then INFINITE_REPEAT else upScan.value;
        CloseInterval(codes, upScan.next, end, syn, low, up)
    else if nonLow then InvalidInterval(syn, q + 1)
    else CloseInterval(codes, q, end, syn, low, low)
  }

  /** The shapes of an interval as written. */
  datatype IntervalForm = Exactly(n: nat) | Between(l: nat, u: nat) | AtLeast(l: nat) | AtMost(u: nat)

  /** The text of an interval after its opening brace, bounds in decimal. */
  function IntervalText(f: IntervalForm): (s: seq<CodePoint>)
  {
    match f
    case Exactly(n) => RadixDigits(n, 10) + [RBRACE]
    case Between(l, u) => RadixDigits(l, 10) + [COMMA] + RadixDigits(u, 10) + [RBRACE]
    case AtLeast(l) => RadixDigits(l, 10) + [COMMA, RBRACE]
    case AtMost(u) => [COMMA] + RadixDigits(u, 10) + [RBRACE]
  }

  /** The bounds an interval form stands for. */
  function FormBounds(f: IntervalForm): (b: (int, int))
  {
    match f
    case Exactly(n) => (n, n)
    case Between(l, u) => (l, u)
    case AtLeast(l) => (l, INFINITE_REPEAT)
    case AtMost(u) => (0, u)
  }

  /** A form the reader accepts: bounds within MAX_REPEAT_NUM, in order, and
      `{,n}` only where the syntax allows it. */
  predicate WellFormedInterval(f: IntervalForm, syn: IntervalSyntax) {
    match f
    case Exactly(n) => n <= MAX_REPEAT_NUM
    case Between(l, u) => l <= u <= MAX_REPEAT_NUM
    case AtLeast(l) => l <= MAX_REPEAT_NUM
    case AtMost(u) => u <= MAX_REPEAT_NUM && syn.allowLowAbbrev
  }

  lemma RoundTripExactly(n: nat, rest: seq<CodePoint>, syn: IntervalSyntax)
    requires n <= MAX_REPEAT_NUM && !syn.escBraceInterval
    ensures var codes := IntervalText(Exactly(n)) + rest;
      FetchInterval(codes, 0, |codes|, syn) == Ok(Interval(n, n, true, |IntervalText(Exactly(n))|))
  {
    var codes := IntervalText(Exactly(n)) + rest;
    var ds := RadixDigits(n, 10);
    assert codes[0..|ds|] == ds && codes[|ds|] == RBRACE;
    ScanNumberReads(codes, 0, n);
  }

  /** A lower bound of digits at `p` hands over to FetchUpper after it. */
  lemma FetchIntervalLowStep(codes: seq<CodePoint>, p: nat, end: nat, syn: IntervalSyntax, low: nat, q: nat)
    requires p < q <= end <= |codes| && low <= MAX_REPEAT_NUM && IsRadixDigit(codes[p], 10)
    requires ScanNumber(codes, p, end) == Scanned(low, q)
    ensures FetchInterval(codes, p, end, syn) == FetchUpper(codes, q, end, syn, low, false)
  {
  }

  /** `,m` with a non-empty upper bound hands over to CloseInterval. */
  lemma FetchUpperCommaStep(codes: seq<CodePoint>, q: nat, end: nat, syn: IntervalSyntax, low: nat, nonLow: bool, up: nat, next: nat)
    requires q + 1 < next <= end <= |codes| && low <= MAX_REPEAT_NUM && up <= MAX_REPEAT_NUM
    requires codes[q] == COMMA && ScanNumber(codes, q + 1, end) == Scanned(up, next)
    ensures FetchUpper(codes, q, end, syn, low, nonLow) == CloseInterval(codes, next, end, syn, low, up)
  {
  }

  /** A plain closing brace at `q` ends the interval. */
  lemma CloseIntervalBrace(codes: seq<CodePoint>, q: nat, end: nat, syn: IntervalSyntax, low: nat, up: int)
    requires q < end <= |codes| && codes[q] == RBRACE && !syn.escBraceInterval
    ensures CloseInterval(codes, q, end, syn, low, up)
      == if up != INFINITE_REPEAT && low > up then Err(ERR_UPPER_SMALLER_THAN_LOWER_IN_REPEAT_RANGE)
         else Ok(Interval(low, up, up == low, q + 1))
  {
  }

  /** `l,u}` read from any two blocks of decimal digits of values l and u. */
  lemma BetweenBlocksRead(dl: seq<CodePoint>, du: seq<CodePoint>, rest: seq<CodePoint>, l: nat, u: nat, syn: IntervalSyntax)
    requires l <= MAX_REPEAT_NUM && u <= MAX_REPEAT_NUM && !syn.escBraceInterval
    requires |dl| > 0 && AllDigits(dl, 0, |dl|, 10) && DigitsValue(0, dl, 0, |dl|, 10) == l
    requires |du| > 0 && AllDigits(du, 0, |du|, 10) && DigitsValue(0, du, 0, |du|, 10) == u
    ensures var codes := dl + [COMMA] + du + [RBRACE] + rest;
      FetchInterval(codes, 0, |codes|, syn)
        == if u < l then Err(ERR_UPPER_SMALLER_THAN_LOWER_IN_REPEAT_RANGE)
           else Ok(Interval(l, u, l == u, |dl| + |du| + 2))
  {
    var codes := dl + [COMMA] + du + [RBRACE] + rest;
    var q := |dl|;
    var next := q + 1 + |du|;
    assert codes[0..q] == dl && codes[q] == COMMA && codes[0] == dl[0];
    assert codes[q + 1..next] == du && codes[next] == RBRACE;
    ScanDigitsReads(codes, 0, dl, l);
    ScanDigitsReads(codes, q + 1, du, u);
    FetchIntervalLowStep(codes, 0, |codes|, syn, l, q);
    FetchUpperCommaStep(codes, q, |codes|, syn, l, false, u, next);
    CloseIntervalBrace(codes, next, |codes|, syn, l, u);
  }

  lemma RoundTripBetween(l: nat, u: nat, rest: seq<CodePoint>, syn: IntervalSyntax)
    requires l <= MAX_REPEAT_NUM && u <= MAX_REPEAT_NUM && !syn.escBraceInterval
    ensures var codes := IntervalText(Between(l, u)) + rest;
      FetchInterval(codes, 0, |codes|, syn)
        == if u < l then Err(ERR_UPPER_SMALLER_THAN_LOWER_IN_REPEAT_RANGE)
           else Ok(Interval(l, u, l == u, |IntervalText(Between(l, u))|))
  {
    BetweenBlocksRead(RadixDigits(l, 10), RadixDigits(u, 10), rest, l, u, syn);
  }

  lemma RoundTripAtLeast(l: nat, rest: seq<CodePoint>, syn: IntervalSyntax)
    requires l <= MAX_REPEAT_NUM && !syn.escBraceInterval
    ensures var codes := IntervalText(AtLeast(l)) + rest;
      FetchInterval(codes, 0, |codes|, syn) == Ok(Interval(l, INFINITE_REPEAT, false, |IntervalText(AtLeast(l))|))
  {
    var codes := IntervalText(AtLeast(l)) + rest;
    var dl := RadixDigits(l, 10);
    assert codes[0..|dl|] == dl && codes[|dl|] == COMMA && codes[|dl| + 1] == RBRACE;
    ScanNumberReads(codes, 0, l);
    assert ScanNumber(codes, |dl| + 1, |codes|).next == |dl| + 1 by {
      ScanNumberSpec(codes, |dl| + 1, |codes|);
      DigitRunOfDigits(codes, |dl| + 1, |codes|, 10, 0);
    }
  }

  lemma RoundTripAtMost(u: nat, rest: seq<CodePoint>, syn: IntervalSyntax)
    requires u <= MAX_REPEAT_NUM && syn.allowLowAbbrev && !syn.escBraceInterval
    ensures var codes := IntervalText(AtMost(u)) + rest;
      FetchInterval(codes, 0, |codes|, syn) == Ok(Interval(0, u, u == 0, |IntervalText(AtMost(u))|))
  {
    var codes := IntervalText(AtMost(u)) + rest;
    var du := RadixDigits(u, 10);
    assert codes[0] == COMMA;
    assert codes[1..1 + |du|] == du && codes[1 + |du|] == RBRACE;
    assert ScanNumber(codes, 0, |codes|).next == 0 by {
      ScanNumberSpec(codes, 0, |codes|);
      DigitRunOfDigits(codes, 0, |codes|, 10, 0);
    }
    ScanNumberReads(codes, 1, u);
  }

  /** Writing a well-formed interval and reading it back gives its bounds,
      `fixed` exactly when they are equal, and the position after the brace. */
  lemma FetchIntervalRoundTrip(f: IntervalForm, rest: seq<CodePoint>, syn: IntervalSyntax)
    requires WellFormedInterval(f, syn) && !syn.escBraceInterval
    ensures var codes := IntervalText(f) + rest;
      var b := FormBounds(f);
      FetchInterval(codes, 0, |codes|, syn) == Ok(Interval(b.0, b.1, b.0 == b.1, |IntervalText(f)|))
  {
    match f
    case Exactly(n) => RoundTripExactly(n, rest, syn);
    case Between(l, u) => RoundTripBetween(l, u, rest, syn);
    case AtLeast(l) => RoundTripAtLeast(l, rest, syn);
    case AtMost(u) => RoundTripAtMost(u, rest, syn);
  }

  /** A bound above MAX_REPEAT_NUM is TOO_BIG_NUMBER_FOR_REPEAT_RANGE. */
  lemma FetchIntervalRejectsBigLower(n: nat, rest: seq<CodePoint>, syn: IntervalSyntax)
    requires MAX_REPEAT_NUM < n <= I32_MAX
    requires |rest| > 0 ==> !IsRadixDigit(rest[0], 10)
    ensures var codes := RadixDigits(n, 10) + rest;
      FetchInterval(codes, 0, |codes|, syn) == Err(ERR_TOO_BIG_NUMBER_FOR_REPEAT_RANGE)
  {
    var codes := RadixDigits(n, 10) + rest;
    assert codes[0..|RadixDigits(n, 10)|] == RadixDigits(n, 10);
    ScanNumberReads(codes, 0, n);
  }
}
