/** The public interface of src/api.rs over the engine: matches, capture
    groups, the first-match and any-match queries, the iterator over
    successive matches, and the builder's option setters. The engine's
    search is a parameter: `(result, region)` as `onig_search` returns it. */
module Api {
  import opened Wrappers
  import opened Oniguruma
  import Exec
  import Encoding

  /** `as usize` of an i32 on a 64-bit target: negative values wrap. */
  function AsUsize(x: int): (n: nat)
    requires I32_MIN <= x <= I32_MAX
    ensures x >= 0 ==> n == x
    ensures x < 0 ==> n >= 0x1_0000_0000_0000_0000 - 0x8000_0000
  {
    if x >= 0 then x else x + 0x1_0000_0000_0000_0000
  }

  /** A region whose offsets fit an i32. */
  predicate I32Region(r: Region) {
    ValidRegion(r)
    && (forall i :: 0 <= i < r.numRegs ==> I32_MIN <= r.beg[i] <= I32_MAX)
    && (forall i :: 0 <= i < r.numRegs ==> I32_MIN <= r.end[i] <= I32_MAX)
  }

  // ---------------------------------------------------------------------------
  // Match
  // ---------------------------------------------------------------------------

  /** A match: the text and the byte offsets of its start and end. */
  datatype Match = Match(text: seq<Byte>, start: nat, end: nat)

  /** `Match::len`: the subtraction panics when `end < start`. */
  function Len(m: Match): (n: nat)
    requires m.start <= m.end
    ensures m.start + n == m.end
  {
    m.end - m.start
  }

  /** `Match::is_empty`. */
  predicate IsEmpty(m: Match) {
    m.start == m.end
  }

  /** `Match::range`, as its two bounds. */
  function Range(m: Match): (r: (nat, nat))
    ensures r.0 == m.start && r.1 == m.end
  {
    (m.start, m.end)
  }

  /** `Match::as_bytes`: the slice panics outside the text. */
  function AsBytes(m: Match): (b: seq<Byte>)
    requires m.start <= m.end <= |m.text|
    ensures |b| == m.end - m.start
    ensures forall i :: 0 <= i < |b| ==> b[i] == m.text[m.start + i]
  {
    m.text[m.start..m.end]
  }

  /** A match's length is the length of its bytes, and it is empty exactly
      when it has none. */
  lemma MatchAccessorsAgree(m: Match)
    requires m.start <= m.end <= |m.text|
    ensures |AsBytes(m)| == Len(m) == Range(m).1 - Range(m).0
    ensures IsEmpty(m) <==> Len(m) == 0
    ensures m.text == m.text[..m.start] + AsBytes(m) + m.text[m.end..]
  {
  }

  // ---------------------------------------------------------------------------
  // Captures
  // ---------------------------------------------------------------------------

  /** The groups of one match. */
  datatype Captures = Captures(text: seq<Byte>, region: Region)

  /** `Captures::len`. */
  function CapturesLen(c: Captures): int {
    c.region.numRegs
  }

  /** `Captures::get`: a group beyond the region or one that did not take
      part gives nothing. */
  function CapturesGet(c: Captures, i: nat): (m: Option<Match>)
    requires I32Region(c.region)
    ensures m.None? <==> i >= c.region.numRegs || c.region.beg[i] == REGION_NOTPOS
    ensures m.Some? ==> (m.value.text == c.text
      && m.value.start == AsUsize(c.region.beg[i]) && m.value.end == AsUsize(c.region.end[i]))
  {
    if i >= c.region.numRegs then None
    else if c.region.beg[i] == REGION_NOTPOS then None
    else Some(Match(c.text, AsUsize(c.region.beg[i]), AsUsize(c.region.end[i])))
  }

  /** `CapturesIter`: one item per group, in order. */
  function CapturesItems(c: Captures): (items: seq<Option<Match>>)
    requires I32Region(c.region)
    ensures |items| == CapturesLen(c)
    ensures forall i :: 0 <= i < |items| ==> items[i] == CapturesGet(c, i)
  {
    seq(c.region.numRegs, (i: int) requires 0 <= i < c.region.numRegs => CapturesGet(c, i))
  }

  /** `Captures::name`, from the group numbers the name lookup returned
      (`None` when the name is unknown): the first of them that took part. */
  function CapturesName(c: Captures, groups: Option<seq<int>>): (m: Option<Match>)
    requires I32Region(c.region)
    requires groups.Some? ==> forall k :: 0 <= k < |groups.value| ==> 0 <= groups.value[k] <= I32_MAX
  {
    match groups
    case None => None
    case Some(nums) => FirstParticipating(c, nums)
  }

  function FirstParticipating(c: Captures, nums: seq<int>): (m: Option<Match>)
    requires I32Region(c.region)
    requires forall k :: 0 <= k < |nums| ==> 0 <= nums[k] <= I32_MAX
    decreases |nums|
  {
    if |nums| == 0 then None
    else
      var g := CapturesGet(c, nums[0]);
      if g.Some? then g else FirstParticipating(c, nums[1..])
  }

  /** The match for a name is the one of the first listed group that took
      part, and there is none exactly when no listed group took part. */
  lemma {:induction false} FirstParticipatingIsFirst(c: Captures, nums: seq<int>)
    requires I32Region(c.region)
    requires forall k :: 0 <= k < |nums| ==> 0 <= nums[k] <= I32_MAX
    ensures FirstParticipating(c, nums).None? <==> forall k :: 0 <= k < |nums| ==> CapturesGet(c, nums[k]).None?
    ensures FirstParticipating(c, nums).Some? ==>
      exists k :: 0 <= k < |nums| && FirstParticipating(c, nums) == CapturesGet(c, nums[k])
        && forall j :: 0 <= j < k ==> CapturesGet(c, nums[j]).None?
    decreases |nums|
  {
    if |nums| > 0 && CapturesGet(c, nums[0]).None? {
      FirstParticipatingIsFirst(c, nums[1..]);
      if FirstParticipating(c, nums).Some? {
        var k :| 0 <= k < |nums[1..]| && FirstParticipating(c, nums[1..]) == CapturesGet(c, nums[1..][k])
                 && forall j :: 0 <= j < k ==> CapturesGet(c, nums[1..][j]).None?;
        assert FirstParticipating(c, nums) == CapturesGet(c, nums[k + 1]);
        assert forall j :: 0 <= j < k + 1 ==> CapturesGet(c, nums[j]).None? by {
          forall j | 0 <= j < k + 1 ensures CapturesGet(c, nums[j]).None? {
            if j > 0 { assert nums[j] == nums[1..][j - 1]; }
          }
        }
      } else {
        forall k | 0 <= k < |nums| ensures CapturesGet(c, nums[k]).None? {
          if k > 0 { assert nums[k] == nums[1..][k - 1]; }
        }
      }
    } else if |nums| > 0 {
      assert FirstParticipating(c, nums) == CapturesGet(c, nums[0]);
    }
  }

  // ---------------------------------------------------------------------------
  // Find and is-match
  // ---------------------------------------------------------------------------

  /** A search outcome the engine can give: a region, when there is one, is
      well formed with i32 offsets. */
  predicate Outcome(region: Option<Region>) {
    region.Some? ==> I32Region(region.value)
  }

  /** `find_bytes`, from the search over the whole text: any negative result
      is no match, and so is a region without the whole-match slot. */
  function FindBytes(text: seq<Byte>, result: int, region: Option<Region>): (m: Option<Match>)
    requires Outcome(region)
    ensures m.Some? <==> result >= 0 && region.Some? && region.value.numRegs >= 1
    ensures m.Some? ==> (m.value.text == text
      && m.value.start == AsUsize(region.value.beg[0]) && m.value.end == AsUsize(region.value.end[0]))
  {
    if result < 0 then None
    else match region
      case None => None
      case Some(r) =>
        if r.numRegs < 1 then None
        else Some(Match(text, AsUsize(r.beg[0]), AsUsize(r.end[0])))
  }

  /** `is_match_bytes`. */
  predicate IsMatchBytes(result: int) {
    result >= 0
  }

  /** For the same search result, `find_bytes` finds a match exactly when
      `is_match_bytes` says there is one, given a region with the
      whole-match slot. */
  lemma FindAgreesWithIsMatch(text: seq<Byte>, result: int, region: Region)
    requires I32Region(region) && region.numRegs >= 1
    ensures FindBytes(text, result, Some(region)).Some? <==> IsMatchBytes(result)
  {
  }

  /** The engine's reply as `(result, region)`: a halted run reports no
      match. */
  function ReplyFind(text: seq<Byte>, reply: Exec.Reply): (m: Option<Match>)
    requires reply.Answer? ==> Outcome(reply.region)
    ensures reply.Halted? ==> m.None?
    ensures reply.Answer? && reply.value < 0 ==> m.None?
  {
    match reply
    case Answer(v, r) => FindBytes(text, v, r)
    case Halted(_) => None
  }

  // ---------------------------------------------------------------------------
  // FindIter
  // ---------------------------------------------------------------------------

  /** The iterator's position: where the next search starts and whether the
      last match was empty. */
  datatype Iter = Iter(lastEnd: nat, lastWasEmpty: bool)

  const FRESH_ITER: Iter := Iter(0, false)

  /** `search(p)`: the engine's search of the whole text from `p`. */
  type Search = nat -> (int, Option<Region>)

  /** The searches the iterator can be given. */
  ghost predicate Searches(search: Search) {
    forall p: nat :: Outcome(search(p).1)
  }

  /** The next match and the new position. */
  datatype Step = Step(item: Option<Match>, it: Iter)

  /** `FindIter::next`. After an empty match, a second empty result steps
      one character past the last end and searches again; the retry cannot
      retry itself, because it starts with `lastWasEmpty` false. */
  function Next(enc: Encoding.Enc, text: seq<Byte>, search: Search, it: Iter): (s: Step)
    requires Searches(search)
    ensures s.item.None? ==> s.it == it || s.it.lastEnd > it.lastEnd
    decreases if it.lastWasEmpty then 1 else 0
  {
    if it.lastEnd > |text| then Step(None, it)
    else
      var (result, region) := search(it.lastEnd);
      var found := FindBytes(text, result, region);
      if found.None? then Step(None, it)
      else
        var m := found.value;
        if m.start == m.end && it.lastWasEmpty then
          if it.lastEnd >= |text| then Step(None, it)
          else
            var skipped := Iter(it.lastEnd + Exec.EncLen(enc, text, it.lastEnd), false);
            Next(enc, text, search, skipped)
        else Step(Some(m), Iter(m.end, m.start == m.end))
  }

  /** What a sane search gives: a match starting at or after the search
      start and ending inside the text, recorded in the whole-match slot. */
  ghost predicate SaneSearch(text: seq<Byte>, search: Search) {
    forall p: nat :: search(p).0 >= 0 ==>
      var region := search(p).1;
      && region.Some? && I32Region(region.value) && region.value.numRegs >= 1
      && p <= region.value.beg[0] == search(p).0 <= region.value.end[0] <= |text|
  }

  /** The iterator's measure: it grows with every match yielded. */
  function Progress(it: Iter): nat {
    2 * it.lastEnd + (if it.lastWasEmpty then 1 else 0)
  }

  /** Every match yielded lies in the text at or after the last end, moves
      the iterator forward, and, after an empty match, is not that same
      empty match again. */
  lemma NextAdvances(enc: Encoding.Enc, text: seq<Byte>, search: Search, it: Iter)
    requires Searches(search) && SaneSearch(text, search)
    ensures var s := Next(enc, text, search, it);
      s.item.Some? ==>
        && it.lastEnd <= s.item.value.start <= s.item.value.end <= |text|
        && Progress(s.it) > Progress(it)
        && s.it == Iter(s.item.value.end, IsEmpty(s.item.value))
        && (it.lastWasEmpty && IsEmpty(s.item.value) ==> s.item.value.start > it.lastEnd)
    decreases if it.lastWasEmpty then 1 else 0
  {
    var s := Next(enc, text, search, it);
    if it.lastEnd <= |text| && s.item.Some? {
      var (result, region) := search(it.lastEnd);
      var m := FindBytes(text, result, region).value;
      if m.start == m.end && it.lastWasEmpty {
        NextAdvances(enc, text, search, Iter(it.lastEnd + Exec.EncLen(enc, text, it.lastEnd), false));
      }
    }
  }

  /** Up to `fuel` calls of `next`, collecting the match starts. */
  function Starts(enc: Encoding.Enc, text: seq<Byte>, search: Search, it: Iter, fuel: nat): seq<nat>
    requires Searches(search)
    decreases fuel
  {
    if fuel == 0 then []
    else
      var s := Next(enc, text, search, it);
      if s.item.None? then [] else [s.item.value.start] + Starts(enc, text, search, s.it, fuel - 1)
  }

  /** The empty pattern's search: an empty match wherever it starts. */
  function EmptyPatternSearch(text: seq<Byte>): (search: Search)
    ensures Searches(search)
  {
    (p: nat) =>
      if p <= |text| && p <= I32_MAX then (p, Some(Region(1, 1, [p], [p], None))) else (MISMATCH, None)
  }

  /** The source's test: the empty pattern over "ab" yields empty matches
      at 0, 1 and 2, and then stops. */
  lemma EmptyPatternOverAb()
    ensures Starts(Encoding.Utf8Enc, [0x61, 0x62], EmptyPatternSearch([0x61, 0x62]), FRESH_ITER, 10) == [0, 1, 2]
  {
    var text: seq<Byte> := [0x61, 0x62];
    var search := EmptyPatternSearch(text);
    var enc := Encoding.Utf8Enc;
    assert Exec.EncLen(enc, text, 0) == 1 && Exec.EncLen(enc, text, 1) == 1;
    var s1 := Next(enc, text, search, Iter(0, false));
    assert s1 == Step(Some(Match(text, 0, 0)), Iter(0, true));
    var s2 := Next(enc, text, search, Iter(0, true));
    assert s2 == Step(Some(Match(text, 1, 1)), Iter(1, true));
    var s3 := Next(enc, text, search, Iter(1, true));
    assert s3 == Step(Some(Match(text, 2, 2)), Iter(2, true));
    var s4 := Next(enc, text, search, Iter(2, true));
    assert s4.item.None?;
  }

  // ---------------------------------------------------------------------------
  // RegexBuilder
  // ---------------------------------------------------------------------------

  datatype RegexBuilder = RegexBuilder(pattern: seq<Byte>, options: Options)

  /** `RegexBuilder::new`: no options. */
  function NewBuilder(pattern: seq<Byte>): (b: RegexBuilder)
    ensures b.pattern == pattern && b.options == OPTION_NONE
  {
    RegexBuilder(pattern, OPTION_NONE)
  }

  /** Sets or clears one option of the builder. */
  function SetOption(b: RegexBuilder, flag: Options, yes: bool): RegexBuilder {
    b.(options := if yes then OptionOn(b.options, flag) else OptionOff(b.options, flag))
  }

  /** Setting an option turns it on for true and off for false, and touches
      neither the pattern nor any other option bit. */
  lemma SetOptionTouchesOne(b: RegexBuilder, flag: Options, yes: bool)
    requires flag != 0
    ensures var r := SetOption(b, flag, yes);
      r.pattern == b.pattern && IsOptionOn(r.options, flag) == yes
      && r.options & !flag == b.options & !flag
  {
    OptionOnOffLaws(b.options, flag);
  }

  /** `case_insensitive`. */
  function CaseInsensitive(b: RegexBuilder, yes: bool): RegexBuilder {
    SetOption(b, OPTION_IGNORECASE, yes)
  }

  /** `dot_matches_newline`. */
  function DotMatchesNewline(b: RegexBuilder, yes: bool): RegexBuilder {
    SetOption(b, OPTION_MULTILINE, yes)
  }

  /** `multi_line_anchors`, which sets the SINGLELINE option. */
  function MultiLineAnchors(b: RegexBuilder, yes: bool): RegexBuilder {
    SetOption(b, OPTION_SINGLELINE, yes)
  }

  /** `extended`. */
  function Extended(b: RegexBuilder, yes: bool): RegexBuilder {
    SetOption(b, OPTION_EXTEND, yes)
  }

  /** `option`: adds raw option bits. */
  function WithOption(b: RegexBuilder, flag: Options): RegexBuilder {
    b.(options := OptionOn(b.options, flag))
  }

  /** `option` turns its bits on and keeps the pattern and every other
      bit. */
  lemma WithOptionAddsBits(b: RegexBuilder, flag: Options)
    requires flag != 0
    ensures var r := WithOption(b, flag);
      r.pattern == b.pattern && IsOptionOn(r.options, flag)
      && r.options & !flag == b.options & !flag
  {
    SetOptionTouchesOne(b, flag, true);
  }

  /** Setting and then clearing an option that was off restores the
      builder. */
  lemma SetThenClearRestores(b: RegexBuilder)
    requires !IsOptionOn(b.options, OPTION_IGNORECASE)
    ensures CaseInsensitive(CaseInsensitive(b, true), false) == b
  {
    OptionOnOffLaws(b.options, OPTION_IGNORECASE);
  }
}
