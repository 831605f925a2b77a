/** The multi-pattern scanner of src/scanner.rs: UTF-16/UTF-8 offset tables
    of a scanned string, the option mapping, the conversion of a region into
    a scanner match, and the per-pattern search with its result cache. The
    patterns' own searches are parameters. */
module Scanner {
  import opened Wrappers
  import opened Oniguruma
  import Utf8

  // ---------------------------------------------------------------------------
  // Offset tables
  // ---------------------------------------------------------------------------

  /** A Rust `char`: a Unicode scalar value. */
  type Char = c: int | 0 <= c <= 0x10_FFFF && !(0xD800 <= c < 0xE000)

  /** `len_utf8`. */
  function Width8(c: Char): (n: nat)
    ensures 1 <= n <= 4
  {
    Utf8.CodeToMbclen(c)
  }

  /** `len_utf16`: a supplementary character takes a surrogate pair. */
  function Width16(c: Char): (n: nat)
    ensures n == 1 || n == 2
  {
    if c >= 0x1_0000 then 2 else 1
  }

  /** The UTF-8 length of `cs`. */
  function Len8(cs: seq<Char>): nat
    decreases |cs|
  {
    if |cs| == 0 then 0 else Width8(cs[0]) + Len8(cs[1..])
  }

  /** The UTF-16 length of `cs`. */
  function Len16(cs: seq<Char>): nat
    decreases |cs|
  {
    if |cs| == 0 then 0 else Width16(cs[0]) + Len16(cs[1..])
  }

  /** The entries `OnigString::new` pushes on `utf16_to_utf8` for `cs`, the
      first character starting at byte `p8`: each code unit's byte offset,
      a low surrogate getting the offset after its character. */
  function Table16(cs: seq<Char>, p8: nat): (t: seq<nat>)
    ensures |t| == Len16(cs)
    decreases |cs|
  {
    if |cs| == 0 then []
    else
      var w := Width8(cs[0]);
      [p8] + (if Width16(cs[0]) == 2 then [p8 + w] else []) + Table16(cs[1..], p8 + w)
  }

  /** The entries `OnigString::new` writes in `utf8_to_utf16` for `cs`, the
      first character starting at code unit `p16`: every byte of a character
      gets the index of the character's first code unit. */
  function Table8(cs: seq<Char>, p16: nat): (t: seq<nat>)
    ensures |t| == Len8(cs)
    decreases |cs|
  {
    if |cs| == 0 then []
    else seq(Width8(cs[0]), _ => p16) + Table8(cs[1..], p16 + Width16(cs[0]))
  }

  /** `OnigString`: the content and its two offset tables. */
  datatype OnigString = OnigString(content: seq<Char>, utf16ToUtf8: seq<nat>, utf8ToUtf16: seq<nat>)

  /** `OnigString::new`: each table ends in its end sentinel. */
  function NewOnigString(content: seq<Char>): (s: OnigString)
    ensures |s.utf16ToUtf8| == Len16(content) + 1 && s.utf16ToUtf8[Len16(content)] == Len8(content)
    ensures |s.utf8ToUtf16| == Len8(content) + 1 && s.utf8ToUtf16[Len8(content)] == Len16(content)
  {
    OnigString(content, Table16(content, 0) + [Len8(content)], Table8(content, 0) + [Len16(content)])
  }

  /** `utf16_len`. */
  function Utf16Len(s: OnigString): int {
    |s.utf16ToUtf8| - 1
  }

  /** `utf16_offset_to_utf8`: beyond the table, the byte length. */
  function Utf16OffsetToUtf8(s: OnigString, off: nat): (r: nat)
    ensures s == NewOnigString(s.content) ==> r <= Len8(s.content)
  {
    if off >= |s.utf16ToUtf8| then Len8(s.content)
    else
      Table16Bounded(s.content, 0);
      s.utf16ToUtf8[off]
  }

  /** `utf8_offset_to_utf16`: beyond the table, the UTF-16 length. */
  function Utf8OffsetToUtf16(s: OnigString, off: nat): (r: int)
    ensures s == NewOnigString(s.content) ==> 0 <= r <= Len16(s.content)
  {
    if off >= |s.utf8ToUtf16| then Utf16Len(s)
    else
      Table8Bounded(s.content, 0);
      s.utf8ToUtf16[off]
  }

  lemma {:induction false} Table16Bounded(cs: seq<Char>, p8: nat)
    ensures forall j :: 0 <= j < |Table16(cs, p8)| ==> p8 <= Table16(cs, p8)[j] <= p8 + Len8(cs)
    decreases |cs|
  {
    if |cs| > 0 {
      Table16Bounded(cs[1..], p8 + Width8(cs[0]));
    }
  }

  lemma {:induction false} Table8Bounded(cs: seq<Char>, p16: nat)
    ensures forall j :: 0 <= j < |Table8(cs, p16)| ==> p16 <= Table8(cs, p16)[j] < p16 + Len16(cs)
    decreases |cs|
  {
    if |cs| > 0 {
      Table8Bounded(cs[1..], p16 + Width16(cs[0]));
    }
  }

  /** The byte offset and UTF-16 offset where character `k` starts. */
  function Start8(cs: seq<Char>, k: nat): nat
    requires k <= |cs|
  {
    Len8(cs[..k])
  }

  function Start16(cs: seq<Char>, k: nat): nat
    requires k <= |cs|
  {
    Len16(cs[..k])
  }

  lemma StartStep(cs: seq<Char>, k: nat)
    requires 0 < k <= |cs|
    ensures Start8(cs, k) == Width8(cs[0]) + Start8(cs[1..], k - 1)
    ensures Start16(cs, k) == Width16(cs[0]) + Start16(cs[1..], k - 1)
  {
    assert cs[..k][1..] == cs[1..][..k - 1];
  }

  lemma StartAll(cs: seq<Char>)
    ensures Start8(cs, |cs|) == Len8(cs) && Start16(cs, |cs|) == Len16(cs)
  {
    assert cs[..|cs|] == cs;
  }

  /** Character `k`'s first code unit maps to its first byte; the low
      surrogate of a supplementary character maps to the byte after it. */
  lemma {:induction false} Table16At(cs: seq<Char>, p8: nat, k: nat)
    requires k < |cs|
    ensures Start16(cs, k) < |Table16(cs, p8)| && Table16(cs, p8)[Start16(cs, k)] == p8 + Start8(cs, k)
    ensures Width16(cs[k]) == 2 ==>
      Start16(cs, k) + 1 < |Table16(cs, p8)| && Table16(cs, p8)[Start16(cs, k) + 1] == p8 + Start8(cs, k + 1)
    decreases |cs|
  {
    var t := Table16(cs, p8);
    var w := Width8(cs[0]);
    var head := [p8] + (if Width16(cs[0]) == 2 then [p8 + w] else []);
    assert t == head + Table16(cs[1..], p8 + w);
    if k == 0 {
      assert cs[..0] == [];
      assert cs[..1] == [cs[0]];
      assert Len8([cs[0]]) == w by { assert [cs[0]][1..] == []; }
    } else {
      Table16At(cs[1..], p8 + w, k - 1);
      StartStep(cs, k);
      StartStep(cs, k + 1);
    }
  }

  /** Every byte of character `k` maps to the character's first code unit. */
  lemma {:induction false} Table8At(cs: seq<Char>, p16: nat, k: nat, d: nat)
    requires k < |cs| && d < Width8(cs[k])
    ensures Start8(cs, k) + d < |Table8(cs, p16)| && Table8(cs, p16)[Start8(cs, k) + d] == p16 + Start16(cs, k)
    decreases |cs|
  {
    var t := Table8(cs, p16);
    assert t == seq(Width8(cs[0]), _ => p16) + Table8(cs[1..], p16 + Width16(cs[0]));
    if k == 0 {
      assert cs[..0] == [];
    } else {
      Table8At(cs[1..], p16 + Width16(cs[0]), k - 1, d);
      StartStep(cs, k);
    }
  }

  /** The byte offset of a character start (or of the end) survives the
      trip to UTF-16 and back. */
  lemma OffsetRoundTrip(content: seq<Char>, k: nat)
    requires k <= |content|
    ensures var s := NewOnigString(content);
      && Utf8OffsetToUtf16(s, Start8(content, k)) == Start16(content, k)
      && Utf16OffsetToUtf8(s, Start16(content, k)) == Start8(content, k)
  {
    var s := NewOnigString(content);
    if k < |content| {
      Table8At(content, 0, k, 0);
      Table16At(content, 0, k);
      assert s.utf8ToUtf16[Start8(content, k)] == Table8(content, 0)[Start8(content, k)];
      assert s.utf16ToUtf8[Start16(content, k)] == Table16(content, 0)[Start16(content, k)];
    } else {
      StartAll(content);
    }
  }

  /** The low surrogate of a supplementary character converts to the byte
      after the character, and every byte inside a character converts to
      the character's first code unit. */
  lemma InsideCharacter(content: seq<Char>, k: nat, d: nat)
    requires k < |content| && d < Width8(content[k])
    ensures var s := NewOnigString(content);
      && Utf8OffsetToUtf16(s, Start8(content, k) + d) == Start16(content, k)
      && (Width16(content[k]) == 2 ==> Utf16OffsetToUtf8(s, Start16(content, k) + 1) == Start8(content, k + 1))
  {
    var s := NewOnigString(content);
    Table8At(content, 0, k, d);
    Table16At(content, 0, k);
    assert s.utf8ToUtf16[Start8(content, k) + d] == Table8(content, 0)[Start8(content, k) + d];
    if Width16(content[k]) == 2 {
      assert s.utf16ToUtf8[Start16(content, k) + 1] == Table16(content, 0)[Start16(content, k) + 1];
    }
  }

  /** Out-of-range offsets clamp to the end of the string. */
  lemma OffsetsClamp(content: seq<Char>, off8: nat, off16: nat)
    requires off8 >= Len8(content) && off16 >= Len16(content)
    ensures var s := NewOnigString(content);
      Utf8OffsetToUtf16(s, off8) == Len16(content) && Utf16OffsetToUtf8(s, off16) == Len8(content)
  {
  }

  /** The example of the source's tests: "a", U+1F4BB, "b". */
  lemma SupplementaryExample()
    ensures var s := NewOnigString([0x61, 0x1_F4BB, 0x62]);
      && Utf16Len(s) == 4 && Len8(s.content) == 6
      && s.utf16ToUtf8 == [0, 1, 5, 5, 6]
      && s.utf8ToUtf16 == [0, 1, 1, 1, 1, 3, 4]
  {
    var cs: seq<Char> := [0x61, 0x1_F4BB, 0x62];
    assert cs[1..][1..] == [0x62];
    assert cs[1..][1..][1..] == [];
  }

  // ---------------------------------------------------------------------------
  // Options
  // ---------------------------------------------------------------------------

  /** `ScannerFindOptions::to_onig_options`. */
  function ToOnigOptions(bits: bv32): (o: Options)
    ensures IsOptionOn(o, OPTION_NOT_BEGIN_STRING) <==> bits & 1 != 0
    ensures IsOptionOn(o, OPTION_NOT_END_STRING) <==> bits & 2 != 0
    ensures IsOptionOn(o, OPTION_NOT_BEGIN_POSITION) <==> bits & 4 != 0
    ensures o & !(OPTION_NOT_BEGIN_STRING | OPTION_NOT_END_STRING | OPTION_NOT_BEGIN_POSITION) == 0
  {
    var o1 := if bits & 1 != 0 then OPTION_NOT_BEGIN_STRING else OPTION_NONE;
    var o2 := if bits & 2 != 0 then o1 | OPTION_NOT_END_STRING else o1;
    if bits & 4 != 0 then o2 | OPTION_NOT_BEGIN_POSITION else o2
  }

  // ---------------------------------------------------------------------------
  // Matches
  // ---------------------------------------------------------------------------

  datatype CaptureIndex = CaptureIndex(start: int, end: int, length: int)

  datatype ScannerMatch = ScannerMatch(index: nat, captures: seq<CaptureIndex>)

  predicate LengthsAgree(m: ScannerMatch) {
    forall i :: 0 <= i < |m.captures| ==> m.captures[i].length == m.captures[i].end - m.captures[i].start
  }

  /** `build_scanner_match`: one entry per region slot, an unset group
      giving (0, 0, 0). */
  function BuildMatch(index: nat, region: Region): (m: ScannerMatch)
    requires ValidRegion(region)
    ensures m.index == index && |m.captures| == region.numRegs && LengthsAgree(m)
    ensures forall i :: 0 <= i < region.numRegs ==>
      if region.beg[i] >= 0 && region.end[i] >= 0
      then m.captures[i].start == region.beg[i] && m.captures[i].end == region.end[i]
      else m.captures[i] == CaptureIndex(0, 0, 0)
  {
    ScannerMatch(index, seq(region.numRegs, i requires 0 <= i < region.numRegs =>
      if region.beg[i] >= 0 && region.end[i] >= 0
      then CaptureIndex(region.beg[i], region.end[i], region.end[i] - region.beg[i])
      else CaptureIndex(0, 0, 0)))
  }

  /** `convert_match_to_utf16`. */
  function ConvertMatchToUtf16(s: OnigString, m: ScannerMatch): (r: ScannerMatch)
    requires forall i :: 0 <= i < |m.captures| ==> m.captures[i].start >= 0 && m.captures[i].end >= 0
    ensures r.index == m.index && |r.captures| == |m.captures| && LengthsAgree(r)
    ensures forall i :: 0 <= i < |r.captures| ==>
      r.captures[i].start == Utf8OffsetToUtf16(s, m.captures[i].start)
      && r.captures[i].end == Utf8OffsetToUtf16(s, m.captures[i].end)
  {
    ScannerMatch(m.index, seq(|m.captures|, i requires 0 <= i < |m.captures| =>
      var st := Utf8OffsetToUtf16(s, m.captures[i].start);
      var en := Utf8OffsetToUtf16(s, m.captures[i].end);
      CaptureIndex(st, en, en - st)))
  }

  /** A capture over whole characters, converted, lands on the UTF-16
      offsets of the same characters. */
  lemma ConvertKeepsCharacters(content: seq<Char>, m: ScannerMatch, i: nat, k1: nat, k2: nat)
    requires i < |m.captures| && k1 <= |content| && k2 <= |content|
    requires forall j :: 0 <= j < |m.captures| ==> m.captures[j].start >= 0 && m.captures[j].end >= 0
    requires m.captures[i].start == Start8(content, k1) && m.captures[i].end == Start8(content, k2)
    ensures var r := ConvertMatchToUtf16(NewOnigString(content), m);
      r.captures[i].start == Start16(content, k1) && r.captures[i].end == Start16(content, k2)
  {
    OffsetRoundTrip(content, k1);
    OffsetRoundTrip(content, k2);
  }

  // ---------------------------------------------------------------------------
  // Per-pattern search and its cache
  // ---------------------------------------------------------------------------

  /** Inputs from this length on take the per-pattern path. */
  const MAX_REGSET_MATCH_INPUT_LEN: nat := 1000

  /** A pattern's cached last search. `lastOptions` is the raw find-option
      word of that search; `None` is a slot no search has filled. */
  datatype CacheEntry = CacheEntry(hasGAnchor: bool, lastStrId: nat, lastPosition: nat,
                                   lastOptions: Option<bv32>, lastMatched: bool, lastResult: int,
                                   lastRegion: Option<Region>)

  /** The pattern text contains `\G`. */
  predicate MentionsG(pattern: string) {
    exists i :: 0 <= i < |pattern| - 1 && pattern[i] == '\\' && pattern[i + 1] == 'G'
  }

  function ContainsG(pattern: string): (r: bool)
    ensures r <==> MentionsG(pattern)
    decreases |pattern|
  {
    if |pattern| < 2 then false
    else if pattern[0] == '\\' && pattern[1] == 'G' then true
    else
      var r := ContainsG(pattern[1..]);
      assert MentionsG(pattern[1..]) ==> MentionsG(pattern) by {
        if MentionsG(pattern[1..]) {
          var i :| 0 <= i < |pattern| - 2 && pattern[1..][i] == '\\' && pattern[1..][i + 1] == 'G';
          assert pattern[i + 1] == '\\' && pattern[i + 2] == 'G';
        }
      }
      assert MentionsG(pattern) ==> MentionsG(pattern[1..]) by {
        if MentionsG(pattern) {
          var i :| 0 <= i < |pattern| - 1 && pattern[i] == '\\' && pattern[i + 1] == 'G';
          assert i > 0;
          assert pattern[1..][i - 1] == '\\' && pattern[1..][i] == 'G';
        }
      }
      r
  }

  /** `CacheEntry::new` as written: the "invalid" option sentinel is
      u32::MAX, which is also a raw find-option word a caller can pass. */
  function NewCacheEntryAsWritten(pattern: string): (c: CacheEntry)
    ensures c.hasGAnchor <==> MentionsG(pattern)
    ensures c.lastOptions == Some(0xFFFF_FFFF) && !c.lastMatched && c.lastResult == MISMATCH
  {
    CacheEntry(ContainsG(pattern), 0, 0, Some(0xFFFF_FFFF), false, MISMATCH, None)
  }

  /** `CacheEntry::new` with an entry no lookup can mistake for a search. */
  function NewCacheEntry(pattern: string): (c: CacheEntry)
    ensures c.hasGAnchor <==> MentionsG(pattern)
    ensures c.lastOptions.None? && !c.lastMatched && c.lastResult == MISMATCH
  {
    CacheEntry(ContainsG(pattern), 0, 0, None, false, MISMATCH, None)
  }

  /** The best match so far: pattern index and start. */
  datatype Best = Best(index: nat, pos: nat)

  datatype Run = Run(caches: seq<CacheEntry>, best: Option<Best>)

  /** A match at `pos` beats the best so far (`best_pos` starts at
      usize::MAX, above every i32 match position). */
  predicate Beats(best: Option<Best>, pos: nat) {
    best.None? || pos < best.value.pos
  }

  /** The cache entry answers a lookup for this string, options and start. */
  predicate CacheHit(c: CacheEntry, useCache: bool, strId: nat, optionsRaw: bv32, start: nat) {
    useCache && !c.hasGAnchor && c.lastStrId == strId && c.lastOptions == Some(optionsRaw) && c.lastPosition <= start
  }

  /** Every cached region is well formed. */
  predicate RegionsValid(caches: seq<CacheEntry>) {
    forall j :: 0 <= j < |caches| && caches[j].lastRegion.Some? ==> ValidRegion(caches[j].lastRegion.value)
  }

  /** The searches of the first `n` patterns leave well-formed regions. */
  predicate ProducesValid(region: nat -> Option<Region>, n: nat) {
    forall j: nat :: j < n && region(j).Some? ==> ValidRegion(region(j).value)
  }

  /** The state after one pattern: caches, best so far, and whether the
      loop stops (a match right at `start` cannot be beaten). */
  datatype Visited = Visited(caches: seq<CacheEntry>, best: Option<Best>, stop: bool)

  /** One turn of the loop of `search_per_regex`, for pattern `i`:
      `search(i)` is pattern `i` searched from `start` to the end and
      `region(i)` the region that search leaves. */
  function VisitPattern(caches: seq<CacheEntry>, i: nat, start: nat, strId: nat, optionsRaw: bv32,
                        useCache: bool, search: nat -> int, region: nat -> Option<Region>,
                        best: Option<Best>): (v: Visited)
    requires i < |caches|
    ensures |v.caches| == |caches| && forall j :: 0 <= j < |caches| && j != i ==> v.caches[j] == caches[j]
    ensures v.best == best || (v.best.Some? && v.best.value.index == i)
    ensures v.stop ==> v.best == Some(Best(i, start))
    ensures RegionsValid(caches) && ProducesValid(region, |caches|) ==> RegionsValid(v.caches)
  {
    var c := caches[i];
    var hit := CacheHit(c, useCache, strId, optionsRaw, start);
    if hit && !c.lastMatched then Visited(caches, best, false)
    else if hit && c.lastResult >= 0 && c.lastResult >= start then
      if Beats(best, c.lastResult) then Visited(caches, Some(Best(i, c.lastResult)), c.lastResult == start)
      else Visited(caches, best, false)
    else
      var r := search(i);
      var cs := caches[i := c.(lastStrId := strId, lastPosition := start, lastOptions := Some(optionsRaw),
                               lastRegion := region(i), lastMatched := r >= 0, lastResult := r)];
      if r >= 0 && Beats(best, r) then Visited(cs, Some(Best(i, r)), r == start)
      else Visited(cs, best, false)
  }

  /** The loop of `search_per_regex` from pattern `i`. */
  function PerRegexFrom(caches: seq<CacheEntry>, i: nat, start: nat, strId: nat, optionsRaw: bv32,
                        useCache: bool, search: nat -> int, region: nat -> Option<Region>,
                        best: Option<Best>): (r: Run)
    requires i <= |caches|
    requires best.Some? ==> best.value.index < i
    ensures |r.caches| == |caches|
    ensures r.best.Some? ==> r.best.value.index < |caches| && (r.best == best || i <= r.best.value.index)
    ensures forall j :: 0 <= j < i ==> r.caches[j] == caches[j]
    ensures RegionsValid(caches) && ProducesValid(region, |caches|) ==> RegionsValid(r.caches)
    decreases |caches| - i
  {
    if i == |caches| then Run(caches, best)
    else
      var v := VisitPattern(caches, i, start, strId, optionsRaw, useCache, search, region, best);
      if v.stop then Run(v.caches, v.best)
      else PerRegexFrom(v.caches, i + 1, start, strId, optionsRaw, useCache, search, region, v.best)
  }

  /** `search_per_regex`: the best pattern's cached region, built into a
      match, with the updated caches. */
  function SearchPerRegex(caches: seq<CacheEntry>, start: nat, strId: nat, optionsRaw: bv32, useCache: bool,
                          search: nat -> int, region: nat -> Option<Region>): (r: (Option<ScannerMatch>, seq<CacheEntry>))
    requires RegionsValid(caches) && ProducesValid(region, |caches|)
    ensures |r.1| == |caches|
    ensures r.0.Some? ==> r.0.value.index < |caches| && r.1[r.0.value.index].lastRegion.Some?
  {
    var run := PerRegexFrom(caches, 0, start, strId, optionsRaw, useCache, search, region, None);
    if run.best.None? then (None, run.caches)
    else
      var idx := run.best.value.index;
      match run.caches[idx].lastRegion
      case None => (None, run.caches)
      case Some(reg) => (Some(BuildMatch(idx, reg)), run.caches)
  }

  // ---------------------------------------------------------------------------
  // What the cache must preserve
  // ---------------------------------------------------------------------------

  /** `first(i, p)` is the start of pattern `i`'s leftmost match at or after
      `p` (searching to the end), or MISMATCH; a search from further on
      finds the same match until it is passed, and no match after a miss.
      These are the facts the cache relies on for patterns without `\G`. */
  ghost predicate FirstLaws(first: (nat, nat) -> int, n: nat) {
    && (forall i: nat, p: nat :: i < n ==> first(i, p) == MISMATCH || first(i, p) >= p)
    && (forall i: nat, p: nat, s: nat :: i < n && p <= s && first(i, p) == MISMATCH ==> first(i, s) == MISMATCH)
    && (forall i: nat, p: nat, s: nat :: i < n && p <= s <= first(i, p) ==> first(i, s) == first(i, p))
  }

  /** Every entry filled for this string and these options records the true
      outcome of a search from its recorded position. */
  ghost predicate Consistent(caches: seq<CacheEntry>, first: (nat, nat) -> int, strId: nat, optionsRaw: bv32) {
    forall i :: 0 <= i < |caches| && !caches[i].hasGAnchor && caches[i].lastStrId == strId
                && caches[i].lastOptions == Some(optionsRaw) ==>
      (caches[i].lastMatched <==> caches[i].lastResult >= 0)
      && caches[i].lastResult == first(i, caches[i].lastPosition)
  }

  /** `best` is the earliest match among patterns `0 .. i` from `start`, ties
      going to the lower index, and `None` when none of them matches. */
  ghost predicate EarliestAmong(best: Option<Best>, first: (nat, nat) -> int, start: nat, i: nat) {
    && (best.None? <==> forall j: nat :: j < i ==> first(j, start) < 0)
    && (best.Some? ==>
          && best.value.index < i && best.value.pos == first(best.value.index, start)
          && forall j: nat :: j < i && first(j, start) >= 0 ==>
               best.value.pos < first(j, start) || (best.value.pos == first(j, start) && best.value.index <= j))
  }

  /** Searching with consistent caches picks the same pattern and position as
      searching every pattern afresh, and leaves the caches consistent. */
  lemma {:induction false} PerRegexEarliest(caches: seq<CacheEntry>, i: nat, start: nat, strId: nat, optionsRaw: bv32,
                                            useCache: bool, search: nat -> int, region: nat -> Option<Region>,
                                            best: Option<Best>, first: (nat, nat) -> int, n: nat)
    requires n == |caches| && i <= n && (best.Some? ==> best.value.index < i)
    requires FirstLaws(first, n) && Consistent(caches, first, strId, optionsRaw)
    requires forall j: nat :: j < n ==> search(j) == first(j, start)
    requires EarliestAmong(best, first, start, i)
    ensures var r := PerRegexFrom(caches, i, start, strId, optionsRaw, useCache, search, region, best);
      EarliestAmong(r.best, first, start, n) && Consistent(r.caches, first, strId, optionsRaw)
    decreases |caches| - i
  {
    if i < n {
      var v := VisitPattern(caches, i, start, strId, optionsRaw, useCache, search, region, best);
      VisitEarliest(caches, i, start, strId, optionsRaw, useCache, search, region, best, first, n);
      if v.stop {
        AfterBreak(v.best, first, start, i, n);
      } else {
        PerRegexEarliest(v.caches, i + 1, start, strId, optionsRaw, useCache, search, region, v.best, first, n);
      }
    }
  }

  /** One turn takes pattern `i` into account and keeps the caches
      consistent. */
  lemma VisitEarliest(caches: seq<CacheEntry>, i: nat, start: nat, strId: nat, optionsRaw: bv32,
                      useCache: bool, search: nat -> int, region: nat -> Option<Region>,
                      best: Option<Best>, first: (nat, nat) -> int, n: nat)
    requires n == |caches| && i < n && (best.Some? ==> best.value.index < i)
    requires FirstLaws(first, n) && Consistent(caches, first, strId, optionsRaw)
    requires search(i) == first(i, start)
    requires EarliestAmong(best, first, start, i)
    ensures var v := VisitPattern(caches, i, start, strId, optionsRaw, useCache, search, region, best);
      EarliestAmong(v.best, first, start, i + 1) && Consistent(v.caches, first, strId, optionsRaw)
  {
    var c := caches[i];
    var hit := CacheHit(c, useCache, strId, optionsRaw, start);
    StepEarliest(best, first, start, i, n);
    if hit && !c.lastMatched {
      CachedMiss(c, first, i, start, n);
    } else if hit && c.lastResult >= 0 && c.lastResult >= start {
      CachedMatch(c, first, i, start, n);
    } else {
      var r := search(i);
      var cs := caches[i := c.(lastStrId := strId, lastPosition := start, lastOptions := Some(optionsRaw),
                               lastRegion := region(i), lastMatched := r >= 0, lastResult := r)];
      RecordKeepsConsistent(caches, first, strId, optionsRaw, i, start, cs);
    }
  }

  /** Taking pattern `i` into account keeps the earliest match. */
  lemma StepEarliest(best: Option<Best>, first: (nat, nat) -> int, start: nat, i: nat, n: nat)
    requires i < n && FirstLaws(first, n) && (best.Some? ==> best.value.index < i)
    requires EarliestAmong(best, first, start, i)
    ensures var v := first(i, start);
      EarliestAmong(if v >= 0 && Beats(best, v) then Some(Best(i, v)) else best, first, start, i + 1)
  {
  }

  /** A consistent entry recording a miss at or before `start` rules out a
      match from `start`. */
  lemma CachedMiss(c: CacheEntry, first: (nat, nat) -> int, i: nat, start: nat, n: nat)
    requires i < n && FirstLaws(first, n)
    requires c.lastPosition <= start && !c.lastMatched
    requires (c.lastMatched <==> c.lastResult >= 0) && c.lastResult == first(i, c.lastPosition)
    ensures first(i, start) == MISMATCH
  {
  }

  /** A consistent entry recording a match at or after `start`, from a
      position at or before it, is the match a search from `start` finds. */
  lemma CachedMatch(c: CacheEntry, first: (nat, nat) -> int, i: nat, start: nat, n: nat)
    requires i < n && FirstLaws(first, n)
    requires c.lastPosition <= start <= c.lastResult
    requires c.lastResult == first(i, c.lastPosition)
    ensures first(i, start) == c.lastResult
  {
  }

  /** Recording a fresh search's true outcome keeps the caches consistent. */
  lemma RecordKeepsConsistent(caches: seq<CacheEntry>, first: (nat, nat) -> int, strId: nat, optionsRaw: bv32,
                              i: nat, start: nat, cs: seq<CacheEntry>)
    requires i < |caches| && Consistent(caches, first, strId, optionsRaw)
    requires |cs| == |caches| && (forall j :: 0 <= j < |cs| && j != i ==> cs[j] == caches[j])
    requires cs[i].lastStrId == strId && cs[i].lastPosition == start && cs[i].lastResult == first(i, start)
    requires cs[i].lastMatched <==> first(i, start) >= 0
    ensures Consistent(cs, first, strId, optionsRaw)
  {
  }

  /** A match right at `start` by pattern `i` beats every later pattern. */
  lemma AfterBreak(best: Option<Best>, first: (nat, nat) -> int, start: nat, i: nat, n: nat)
    requires i < n && FirstLaws(first, n)
    requires best == Some(Best(i, start)) && first(i, start) == start
    requires EarliestAmong(best, first, start, i + 1)
    ensures EarliestAmong(best, first, start, n)
  {
    forall j: nat | i < j < n && first(j, start) >= 0
      ensures start <= first(j, start)
    {
    }
  }

  /** A scanner's fresh entries are consistent with any search outcome. */
  lemma FreshConsistent(patterns: seq<string>, first: (nat, nat) -> int, strId: nat, optionsRaw: bv32)
    ensures Consistent(seq(|patterns|, i requires 0 <= i < |patterns| => NewCacheEntry(patterns[i])),
                       first, strId, optionsRaw)
  {
  }

  /** A fresh scanner, searched as a caller may search it, finds nothing
      whatever the first pattern matches. */
  lemma FreshScannerAsWrittenMisses(pattern: string, search: nat -> int, region: nat -> Option<Region>)
    requires !MentionsG(pattern)
    ensures var r := PerRegexFrom([NewCacheEntryAsWritten(pattern)], 0, 0, 0, 0xFFFF_FFFF, true, search, region, None);
      r.best.None?
  {
  }

  /** Pattern 0 matches at 0 and nowhere after. */
  function MatchAtZero(): (first: (nat, nat) -> int)
    ensures first(0, 0) == 0
  {
    (i: nat, p: nat) => if p == 0 then 0 else MISMATCH
  }

  /** Concretely: the pattern "a", whose search from 0 succeeds at 0, goes
      unreported, because the as-written fresh entry is not consistent;
      the corrected entry reports it. */
  lemma FreshScannerAsWrittenExample()
    ensures !Consistent([NewCacheEntryAsWritten("a")], MatchAtZero(), 0, 0xFFFF_FFFF)
    ensures PerRegexFrom([NewCacheEntryAsWritten("a")], 0, 0, 0, 0xFFFF_FFFF, true,
                         (i: nat) => MatchAtZero()(i, 0), (i: nat) => None, None).best.None?
    ensures PerRegexFrom([NewCacheEntry("a")], 0, 0, 0, 0xFFFF_FFFF, true,
                         (i: nat) => MatchAtZero()(i, 0), (i: nat) => None, None).best == Some(Best(0, 0))
  {
    var c := NewCacheEntryAsWritten("a");
    assert !c.hasGAnchor by { assert !MentionsG("a"); }
    assert c.lastResult != MatchAtZero()(0, c.lastPosition);
    assert [c][0] == c;
  }

  /** `search_per_regex` with consistent caches answers with the pattern
      whose match from `start` is earliest, the lower index winning a tie;
      when no pattern matches it answers nothing; and it leaves the caches
      consistent. */
  lemma SearchPerRegexEarliest(caches: seq<CacheEntry>, start: nat, strId: nat, optionsRaw: bv32, useCache: bool,
                               search: nat -> int, region: nat -> Option<Region>, first: (nat, nat) -> int)
    requires RegionsValid(caches) && ProducesValid(region, |caches|)
    requires FirstLaws(first, |caches|) && Consistent(caches, first, strId, optionsRaw)
    requires forall j: nat :: j < |caches| ==> search(j) == first(j, start)
    ensures var r := SearchPerRegex(caches, start, strId, optionsRaw, useCache, search, region);
      && Consistent(r.1, first, strId, optionsRaw)
      && ((forall j: nat :: j < |caches| ==> first(j, start) < 0) ==> r.0.None?)
      && (r.0.Some? ==>
            var i := r.0.value.index;
            && i < |caches| && first(i, start) >= 0
            && forall j: nat :: j < |caches| && first(j, start) >= 0 ==>
                 first(i, start) < first(j, start) || (first(i, start) == first(j, start) && i <= j))
  {
    PerRegexEarliest(caches, 0, start, strId, optionsRaw, useCache, search, region, None, first, |caches|);
  }

  // ---------------------------------------------------------------------------
  // The entry point
  // ---------------------------------------------------------------------------

  /** `find_next_match_inner`. Short subjects go through the pattern set,
      whose position-lead search result is `setResult` (pattern index or
      negative) and whose regions are `setRegion`; longer subjects through
      the per-pattern search. */
  function FindNextMatchInner(text: seq<Byte>, caches: seq<CacheEntry>, strId: nat, start: nat, optionsRaw: bv32,
                              useCache: bool, setResult: int, setRegion: nat -> Option<Region>,
                              search: nat -> int, region: nat -> Option<Region>): (r: (Option<ScannerMatch>, seq<CacheEntry>))
    requires RegionsValid(caches) && ProducesValid(region, |caches|)
    requires setResult >= 0 && setRegion(setResult).Some? ==> ValidRegion(setRegion(setResult).value)
    ensures start > |text| ==> r == (None, caches)
    ensures |text| < MAX_REGSET_MATCH_INPUT_LEN ==> r.1 == caches
    ensures start <= |text| < MAX_REGSET_MATCH_INPUT_LEN ==>
      (r.0.Some? <==> 0 <= setResult && setRegion(setResult).Some?)
      && (r.0.Some? ==> r.0.value == BuildMatch(setResult, setRegion(setResult).value))
    ensures start <= |text| && |text| >= MAX_REGSET_MATCH_INPUT_LEN ==>
      r == SearchPerRegex(caches, start, strId, optionsRaw, useCache, search, region)
  {
    if start > |text| then (None, caches)
    else if |text| < MAX_REGSET_MATCH_INPUT_LEN then
      if setResult < 0 then (None, caches)
      else
        match setRegion(setResult)
        case None => (None, caches)
        case Some(reg) => (Some(BuildMatch(setResult, reg)), caches)
    else SearchPerRegex(caches, start, strId, optionsRaw, useCache, search, region)
  }
}
