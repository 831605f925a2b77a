/** Unicode character properties and the case-fold entry points of
    unicode/mod.rs. The generated property tables (PROPERTY_NAMES and
    CODE_RANGES) are not part of this model: they are a parameter, a
    `PropertyData`, whose only assumed shape is the one the lookups rely on
    (names strictly sorted, each range list sorted and disjoint). */
module Unicode {
  import opened Wrappers
  import opened Oniguruma
  import opened Regenc

  /** EncUNICODE_ISO_8859_1_CtypeTable: the character types of the codes
      below 256. */
  const ISO_8859_1_CTYPE_TABLE: seq<nat> := [
    0x4008, 0x4008, 0x4008, 0x4008, 0x4008, 0x4008, 0x4008, 0x4008,
    0x4008, 0x428c, 0x4289, 0x4288, 0x4288, 0x4288, 0x4008, 0x4008,
    0x4008, 0x4008, 0x4008, 0x4008, 0x4008, 0x4008, 0x4008, 0x4008,
    0x4008, 0x4008, 0x4008, 0x4008, 0x4008, 0x4008, 0x4008, 0x4008,
    0x4284, 0x41a0, 0x41a0, 0x41a0, 0x41a0, 0x41a0, 0x41a0, 0x41a0,
    0x41a0, 0x41a0, 0x41a0, 0x41a0, 0x41a0, 0x41a0, 0x41a0, 0x41a0,
    0x78b0, 0x78b0, 0x78b0, 0x78b0, 0x78b0, 0x78b0, 0x78b0, 0x78b0,
    0x78b0, 0x78b0, 0x41a0, 0x41a0, 0x41a0, 0x41a0, 0x41a0, 0x41a0,
    0x41a0, 0x7ca2, 0x7ca2, 0x7ca2, 0x7ca2, 0x7ca2, 0x7ca2, 0x74a2,
    0x74a2, 0x74a2, 0x74a2, 0x74a2, 0x74a2, 0x74a2, 0x74a2, 0x74a2,
    0x74a2, 0x74a2, 0x74a2, 0x74a2, 0x74a2, 0x74a2, 0x74a2, 0x74a2,
    0x74a2, 0x74a2, 0x74a2, 0x41a0, 0x41a0, 0x41a0, 0x41a0, 0x51a0,
    0x41a0, 0x78e2, 0x78e2, 0x78e2, 0x78e2, 0x78e2, 0x78e2, 0x70e2,
    0x70e2, 0x70e2, 0x70e2, 0x70e2, 0x70e2, 0x70e2, 0x70e2, 0x70e2,
    0x70e2, 0x70e2, 0x70e2, 0x70e2, 0x70e2, 0x70e2, 0x70e2, 0x70e2,
    0x70e2, 0x70e2, 0x70e2, 0x41a0, 0x41a0, 0x41a0, 0x41a0, 0x4008,
    0x0008, 0x0008, 0x0008, 0x0008, 0x0008, 0x0288, 0x0008, 0x0008,
    0x0008, 0x0008, 0x0008, 0x0008, 0x0008, 0x0008, 0x0008, 0x0008,
    0x0008, 0x0008, 0x0008, 0x0008, 0x0008, 0x0008, 0x0008, 0x0008,
    0x0008, 0x0008, 0x0008, 0x0008, 0x0008, 0x0008, 0x0008, 0x0008,
    0x0284, 0x01a0, 0x01a0, 0x01a0, 0x01a0, 0x01a0, 0x01a0, 0x01a0,
    0x01a0, 0x01a0, 0x30e2, 0x01a0, 0x01a0, 0x00a8, 0x01a0, 0x01a0,
    0x01a0, 0x01a0, 0x10a0, 0x10a0, 0x01a0, 0x30e2, 0x01a0, 0x01a0,
    0x01a0, 0x10a0, 0x30e2, 0x01a0, 0x10a0, 0x10a0, 0x10a0, 0x01a0,
    0x34a2, 0x34a2, 0x34a2, 0x34a2, 0x34a2, 0x34a2, 0x34a2, 0x34a2,
    0x34a2, 0x34a2, 0x34a2, 0x34a2, 0x34a2, 0x34a2, 0x34a2, 0x34a2,
    0x34a2, 0x34a2, 0x34a2, 0x34a2, 0x34a2, 0x34a2, 0x34a2, 0x01a0,
    0x34a2, 0x34a2, 0x34a2, 0x34a2, 0x34a2, 0x34a2, 0x34a2, 0x30e2,
    0x30e2, 0x30e2, 0x30e2, 0x30e2, 0x30e2, 0x30e2, 0x30e2, 0x30e2,
    0x30e2, 0x30e2, 0x30e2, 0x30e2, 0x30e2, 0x30e2, 0x30e2, 0x30e2,
    0x30e2, 0x30e2, 0x30e2, 0x30e2, 0x30e2, 0x30e2, 0x30e2, 0x01a0,
    0x30e2, 0x30e2, 0x30e2, 0x30e2, 0x30e2, 0x30e2, 0x30e2, 0x30e2
  ]

  /** The generated property data: (normalised name, ctype) pairs and, per
      ctype, the flat list `[start0, end0, start1, end1, ...]` of its ranges. */
  datatype PropertyData = PropertyData(names: seq<(seq<Byte>, nat)>, codeRanges: seq<seq<CodePoint>>)

  /** Lexicographic order on byte strings (the order of `&[u8]`): a proper
      prefix sorts first. */
  predicate LexLess(a: seq<Byte>, b: seq<Byte>)
    decreases |a|
  {
    if |a| == 0 then |b| > 0
    else if |b| == 0 then false
    else a[0] < b[0] || (a[0] == b[0] && LexLess(a[1..], b[1..]))
  }

  lemma {:induction false} LexLessIrreflexive(a: seq<Byte>)
    ensures !LexLess(a, a)
    decreases |a|
  {
    if |a| > 0 { LexLessIrreflexive(a[1..]); }
  }

  lemma {:induction false} LexLessTransitive(a: seq<Byte>, b: seq<Byte>, c: seq<Byte>)
    requires LexLess(a, b) && LexLess(b, c)
    ensures LexLess(a, c)
    decreases |a|
  {
    if |a| > 0 && |b| > 0 && |c| > 0 && a[0] == b[0] && b[0] == c[0] {
      LexLessTransitive(a[1..], b[1..], c[1..]);
    }
  }

  lemma {:induction false} LexLessTotal(a: seq<Byte>, b: seq<Byte>)
    requires a != b
    ensures LexLess(a, b) || LexLess(b, a)
    decreases |a|
  {
    if |a| > 0 && |b| > 0 && a[0] == b[0] {
      assert a == [a[0]] + a[1..] && b == [b[0]] + b[1..];
      LexLessTotal(a[1..], b[1..]);
    }
  }

  /** The names are strictly increasing, hence distinct. */
  predicate NamesSorted(names: seq<(seq<Byte>, nat)>) {
    forall i, j :: 0 <= i < j < |names| ==> LexLess(names[i].0, names[j].0)
  }

  /** A range list: an even number of bounds, each pair ordered, pairs in
      increasing order without overlap. */
  predicate RangesSorted(ranges: seq<CodePoint>) {
    && |ranges| % 2 == 0
    && (forall k :: 0 <= k < |ranges| / 2 ==> RangeStart(ranges, k) <= RangeEnd(ranges, k))
    && (forall k, l :: 0 <= k < l < |ranges| / 2 ==> RangeEnd(ranges, k) < RangeStart(ranges, l))
  }

  /** The start of pair `k` of a flat range list. */
  function RangeStart(ranges: seq<CodePoint>, k: nat): CodePoint
    requires k < |ranges| / 2
  {
    ranges[2 * k]
  }

  /** The end of pair `k` of a flat range list. */
  function RangeEnd(ranges: seq<CodePoint>, k: nat): CodePoint
    requires k < |ranges| / 2
  {
    ranges[2 * k + 1]
  }

  predicate ValidPropertyData(pd: PropertyData) {
    && NamesSorted(pd.names)
    && (forall t :: 0 <= t < |pd.codeRanges| ==> RangesSorted(pd.codeRanges[t]))
  }

  /** Membership in a range list, pair by pair. */
  predicate InRanges(ranges: seq<CodePoint>, code: CodePoint) {
    exists k :: 0 <= k < |ranges| / 2 && RangeStart(ranges, k) <= code <= RangeEnd(ranges, k)
  }

  // ---------------------------------------------------------------------------
  // Property names
  // ---------------------------------------------------------------------------

  /** The bytes a property name may contain in any number without changing it. */
  predicate IsIgnoredInName(b: Byte) {
    b == 0x20 || b == 0x2d || b == 0x5f
  }

  /** The normal form of a name: ignored bytes dropped, ASCII lowered. */
  function NormalizedName(p: seq<Byte>): (key: seq<Byte>)
    ensures |key| <= |p|
    decreases |p|
  {
    if |p| == 0 then []
    else if IsIgnoredInName(p[|p| - 1]) then NormalizedName(p[..|p| - 1])
    else NormalizedName(p[..|p| - 1]) + [AsciiToLower(p[|p| - 1])]
  }

  /** Some byte that is kept is not ASCII. */
  predicate HasNonAsciiNameByte(p: seq<Byte>) {
    exists i :: 0 <= i < |p| && !IsIgnoredInName(p[i]) && p[i] >= 0x80
  }

  /** The length limit of the normalisation buffer. */
  const PROPERTY_NAME_MAX_SIZE: nat := 128

  /** The normalisation loop of `onigenc_unicode_property_name_to_ctype`:
      ignored bytes are skipped, a kept non-ASCII byte or a 129th kept byte
      fails with INVALID_CHAR_PROPERTY_NAME, and kept bytes are lowered. */
  method NormalizePropertyName(p: seq<Byte>) returns (r: Result<seq<Byte>>)
    ensures r.Err? <==> HasNonAsciiNameByte(p) || |NormalizedName(p)| > PROPERTY_NAME_MAX_SIZE
    ensures r.Err? ==> r.code == ERR_INVALID_CHAR_PROPERTY_NAME
    ensures r.Ok? ==> r.value == NormalizedName(p)
  {
    var buf: seq<Byte> := [];
    var i := 0;
    while i < |p|
      invariant 0 <= i <= |p|
      invariant buf == NormalizedName(p[..i])
      invariant !HasNonAsciiNameByte(p[..i])
      invariant |buf| <= PROPERTY_NAME_MAX_SIZE
    {
      var b := p[i];
      assert p[..i + 1][..i] == p[..i];
      if IsIgnoredInName(b) {
        i := i + 1;
        continue;
      }
      if b >= 0x80 {
        assert !IsIgnoredInName(p[i]) && p[i] >= 0x80;
        return Err(ERR_INVALID_CHAR_PROPERTY_NAME);
      }
      if |buf| >= PROPERTY_NAME_MAX_SIZE {
        NormalizedNamePrefixGrows(p, i + 1);
        return Err(ERR_INVALID_CHAR_PROPERTY_NAME);
      }
      buf := buf + [AsciiToLower(b)];
      i := i + 1;
    }
    assert p[..i] == p;
    return Ok(buf);
  }

  /** Normalising a longer prefix never gives a shorter name. */
  lemma {:induction false} NormalizedNamePrefixGrows(p: seq<Byte>, i: nat)
    requires i <= |p|
    ensures |NormalizedName(p[..i])| <= |NormalizedName(p)|
    decreases |p| - i
  {
    if i == |p| {
      assert p[..i] == p;
    } else {
      NormalizedNamePrefixGrows(p, i + 1);
      assert p[..i + 1][..i] == p[..i];
    }
  }

  /** Normalisation ignores the skipped bytes and the case of ASCII letters:
      names that differ only there have the same normal form. */
  lemma {:induction false} NormalizedNameAppend(p: seq<Byte>, q: seq<Byte>)
    ensures NormalizedName(p + q) == NormalizedName(p) + NormalizedName(q)
    decreases |q|
  {
    if |q| == 0 {
      assert p + q == p;
    } else {
      var q' := q[..|q| - 1];
      assert (p + q)[..|p + q| - 1] == p + q';
      NormalizedNameAppend(p, q');
    }
  }

  /** Ignored bytes and letter case do not change a name's normal form. */
  lemma NormalizedNameInsensitive(p: seq<Byte>, q: seq<Byte>, b: Byte)
    ensures IsIgnoredInName(b) ==> NormalizedName(p + [b] + q) == NormalizedName(p + q)
    ensures IsAsciiUpper(b) ==> NormalizedName(p + [b] + q) == NormalizedName(p + [b + 0x20] + q)
  {
    NormalizedNameAppend(p + [b], q);
    NormalizedNameAppend(p, [b]);
    NormalizedNameAppend(p, q);
    if IsAsciiUpper(b) {
      NormalizedNameAppend(p + [b + 0x20], q);
      NormalizedNameAppend(p, [b + 0x20]);
    }
    assert NormalizedName([]) == [];
    assert [b][..0] == [];
  }

  /** The binary search of PROPERTY_NAMES for `key`: the ctype stored with
      exactly that name, or INVALID_CHAR_PROPERTY_NAME. */
  method LookupPropertyName(names: seq<(seq<Byte>, nat)>, key: seq<Byte>) returns (r: int)
    requires NamesSorted(names)
    ensures (exists i :: 0 <= i < |names| && names[i].0 == key && r == names[i].1)
      || (r == ERR_INVALID_CHAR_PROPERTY_NAME && forall i :: 0 <= i < |names| ==> names[i].0 != key)
  {
    var lo, hi := 0, |names|;
    while lo < hi
      invariant 0 <= lo <= hi <= |names|
      invariant forall i :: 0 <= i < lo ==> names[i].0 != key
      invariant forall i :: hi <= i < |names| ==> names[i].0 != key
    {
      var mid := (lo + hi) / 2;
      if names[mid].0 == key {
        return names[mid].1;
      }
      LexLessTotal(names[mid].0, key);
      if LexLess(names[mid].0, key) {
        forall i | 0 <= i <= mid ensures names[i].0 != key {
          if i < mid { LexLessTransitive(names[i].0, names[mid].0, key); }
          LexLessIrreflexive(key);
        }
        lo := mid + 1;
      } else {
        forall i | mid <= i < |names| ensures names[i].0 != key {
          if i > mid { LexLessTransitive(key, names[mid].0, names[i].0); }
          LexLessIrreflexive(key);
        }
        hi := mid;
      }
    }
    return ERR_INVALID_CHAR_PROPERTY_NAME;
  }

  /** `onigenc_unicode_property_name_to_ctype`: the ctype listed for the
      name's normal form. */
  method PropertyNameToCtype(pd: PropertyData, p: seq<Byte>) returns (r: int)
    requires ValidPropertyData(pd)
    ensures HasNonAsciiNameByte(p) || |NormalizedName(p)| > PROPERTY_NAME_MAX_SIZE
      ==> r == ERR_INVALID_CHAR_PROPERTY_NAME
    ensures !HasNonAsciiNameByte(p) && |NormalizedName(p)| <= PROPERTY_NAME_MAX_SIZE ==>
      (exists i :: 0 <= i < |pd.names| && pd.names[i].0 == NormalizedName(p) && r == pd.names[i].1)
      || (r == ERR_INVALID_CHAR_PROPERTY_NAME
          && forall i :: 0 <= i < |pd.names| ==> pd.names[i].0 != NormalizedName(p))
  {
    var key := NormalizePropertyName(p);
    if key.Err? {
      return key.code;
    }
    r := LookupPropertyName(pd.names, key.value);
  }

  // ---------------------------------------------------------------------------
  // Character types of code points
  // ---------------------------------------------------------------------------

  /** The binary search of one range list: the index of the first pair whose
      end is not below `code`, then a test of that pair's start. */
  method SearchRanges(ranges: seq<CodePoint>, code: CodePoint) returns (found: bool)
    requires RangesSorted(ranges)
    ensures found <==> InRanges(ranges, code)
  {
    var n := |ranges| / 2;
    var low, high := 0, n;
    while low < high
      invariant 0 <= low <= high <= n
      invariant forall k :: 0 <= k < low ==> RangeEnd(ranges, k) < code
      invariant forall k :: high <= k < n ==> code <= RangeEnd(ranges, k)
    {
      var mid := (low + high) / 2;
      assert ranges[mid * 2 + 1] == RangeEnd(ranges, mid);
      if code > ranges[mid * 2 + 1] {
        forall k | 0 <= k < mid ensures RangeEnd(ranges, k) < code {
          assert RangeEnd(ranges, k) < RangeStart(ranges, mid);
        }
        low := mid + 1;
      } else {
        forall k | mid < k < n ensures code <= RangeEnd(ranges, k) {
          assert RangeEnd(ranges, mid) < RangeStart(ranges, k);
        }
        high := mid;
      }
    }
    found := low < n && code >= ranges[low * 2];
    if found {
      assert ranges[low * 2] == RangeStart(ranges, low);
      assert RangeStart(ranges, low) <= code <= RangeEnd(ranges, low);
    } else {
      forall k | 0 <= k < n ensures !(RangeStart(ranges, k) <= code <= RangeEnd(ranges, k)) {
        if k > low { assert RangeEnd(ranges, low) < RangeStart(ranges, k); }
      }
    }
  }

  /** Whether the ISO-8859-1 table gives `code` the type `ctype`. */
  predicate IsoHasCtype(code: nat, ctype: nat)
    requires code < 256 && ctype <= MAX_STD_CTYPE
  {
    EntryHasCtype(ISO_8859_1_CTYPE_TABLE[code], ctype)
  }

  /** `onigenc_unicode_is_code_ctype`: the ISO-8859-1 table for the standard
      types below 256, no type past the generated tables, and range
      membership otherwise. */
  method UnicodeIsCodeCtype(pd: PropertyData, code: CodePoint, ctype: nat) returns (b: bool)
    requires ValidPropertyData(pd)
    ensures ctype <= MAX_STD_CTYPE && code < 256 ==> b == IsoHasCtype(code, ctype)
    ensures !(ctype <= MAX_STD_CTYPE && code < 256) && ctype >= |pd.codeRanges| ==> !b
    ensures !(ctype <= MAX_STD_CTYPE && code < 256) && ctype < |pd.codeRanges| ==>
      b == InRanges(pd.codeRanges[ctype], code)
  {
    if ctype <= MAX_STD_CTYPE && code < 256 {
      return IsoHasCtype(code, ctype);
    }
    if ctype >= |pd.codeRanges| {
      return false;
    }
    b := SearchRanges(pd.codeRanges[ctype], code);
  }

  /** `onigenc_unicode_ctype_code_range`: the range list of a known ctype. */
  function UnicodeCtypeCodeRange(pd: PropertyData, ctype: nat): (r: Option<seq<CodePoint>>)
    ensures r.None? <==> ctype >= |pd.codeRanges|
    ensures r.Some? ==> r.value == pd.codeRanges[ctype]
  {
    if ctype >= |pd.codeRanges| then None else Some(pd.codeRanges[ctype])
  }

  // ---------------------------------------------------------------------------
  // Case folding (the fold data is not ported yet)
  // ---------------------------------------------------------------------------

  /** `onigenc_unicode_mbc_case_fold`: copies the `len` bytes of the character
      at `pp` unchanged (`len` is the encoding's length of that character) and
      moves past them. Copying demands that the character is inside `data`. */
  function UnicodeMbcCaseFold(len: nat, data: seq<Byte>, pp: nat): (r: FoldStep)
    requires pp + len <= |data|
    ensures r.next == pp + len && |r.folded| == len
    ensures forall i :: 0 <= i < len ==> r.folded[i] == data[pp + i]
  {
    FoldStep(data[pp .. pp + len], pp + len)
  }

  /** `onigenc_unicode_apply_all_case_fold`: no pair is known, so no call is
      made and the result is 0. */
  function UnicodeApplyAllCaseFold(f: (CodePoint, seq<CodePoint>) -> int): (run: FoldRun)
    ensures run.result == 0 && run.calls == []
  {
    FoldRun(0, [])
  }

  /** `onigenc_unicode_get_case_fold_codes_by_str`: an ASCII lead byte gets
      the ASCII alternatives, anything else none. */
  function UnicodeGetCaseFoldCodesByStr(p: seq<Byte>): (items: seq<CaseFoldCodeItem>)
    requires |p| >= 1
    ensures p[0] < 128 ==> items == AsciiGetCaseFoldCodesByStr(p)
    ensures p[0] >= 128 ==> items == []
  {
    if p[0] < 128 then AsciiGetCaseFoldCodesByStr(p) else []
  }
}
