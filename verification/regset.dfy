/** Sets of compiled regexes searched together (src/regset.rs): the anchor
    data folded over the members, the add/replace bookkeeping, and the two
    search strategies. A member's own match and search are parameters: the
    set only sees the code each returns. */
module RegSet {
  import opened Wrappers
  import opened Oniguruma
  import opened Regint
  import Encoding
  import Exec

  /** The anchor flags (ANCR_*) set in an anchor mask. The source combines
      masks with `&` and tests them with `& flag != 0`: intersection and
      membership. */
  type Anchors = set<int>

  /** What the set reads from one compiled member. `optimized` says that the
      member has a search optimisation (`optimize != OptimizeType::None`). */
  datatype RegInfo = RegInfo(options: Options, enc: Encoding.Enc, anchor: Anchors,
                             ancDistMin: nat, ancDistMax: nat, optimized: bool,
                             distMax: nat, numMem: nat, thresholdLen: nat)

  /** The aggregates a set keeps about its members. */
  datatype Agg = Agg(anchor: Anchors, dmin: nat, dmax: nat, allLowHigh: bool, anycharInf: bool)

  datatype RegSet = RegSet(entries: seq<RegInfo>, enc: Encoding.Enc, agg: Agg)

  /** How the set is searched. */
  datatype Lead = PositionLead | RegexLead | PriorityToRegexOrder

  /** A search answer `(result, position)`: `result` is a member index, MISMATCH
      or an error code. `Panicked` is an out-of-bounds subject read. */
  datatype SetReply = Reply(result: int, pos: int) | Panicked

  const NEWLINE: Byte := 0x0a

  // ---------------------------------------------------------------------------
  // Aggregates
  // ---------------------------------------------------------------------------

  predicate LowHigh(e: RegInfo) {
    e.optimized && e.distMax != INFINITE_LEN
  }

  predicate HasAnycharInf(e: RegInfo) {
    ANCR_ANYCHAR_INF in e.anchor
  }

  /** The aggregates of a set whose only member is `e`. */
  function Start(e: RegInfo): Agg {
    Agg(e.anchor, e.ancDistMin, e.ancDistMax, LowHigh(e), HasAnycharInf(e))
  }

  /** One more member folded in: the anchor bits common to all survive, the
      distance window widens only while some common anchor remains. */
  function Absorb(a: Agg, e: RegInfo): Agg {
    var na := a.anchor * e.anchor;
    Agg(na,
        if na != {} && e.ancDistMin < a.dmin then e.ancDistMin else a.dmin,
        if na != {} && e.ancDistMax > a.dmax then e.ancDistMax else a.dmax,
        a.allLowHigh && LowHigh(e),
        a.anycharInf || HasAnycharInf(e))
  }

  /** The aggregates of the members `es`, folded in order. */
  function Replay(es: seq<RegInfo>): Agg
    requires |es| > 0
    decreases |es|
  {
    if |es| == 1 then Start(es[0]) else Absorb(Replay(es[..|es| - 1]), es[|es| - 1])
  }

  /** The anchor flags of the aggregate are exactly those every member has. */
  lemma {:induction false} ReplayAnchor(es: seq<RegInfo>)
    requires |es| > 0
    ensures forall x :: x in Replay(es).anchor <==> forall j :: 0 <= j < |es| ==> x in es[j].anchor
    decreases |es|
  {
    if |es| > 1 {
      var p := es[..|es| - 1];
      ReplayAnchor(p);
      assert forall j :: 0 <= j < |p| ==> p[j] == es[j];
    }
  }

  /** `allLowHigh` is a conjunction and `anycharInf` a disjunction over the
      members. */
  lemma {:induction false} ReplayFlags(es: seq<RegInfo>)
    requires |es| > 0
    ensures Replay(es).allLowHigh <==> forall j :: 0 <= j < |es| ==> LowHigh(es[j])
    ensures Replay(es).anycharInf <==> exists j :: 0 <= j < |es| && HasAnycharInf(es[j])
    decreases |es|
  {
    if |es| > 1 {
      var p := es[..|es| - 1];
      ReplayFlags(p);
      assert forall j :: 0 <= j < |p| ==> p[j] == es[j];
    }
  }

  /** While the common anchor is non-zero, the distance window is the
      smallest minimum and the largest maximum over the members. */
  lemma {:induction false} ReplayWindow(es: seq<RegInfo>)
    requires |es| > 0 && Replay(es).anchor != {}
    ensures forall j :: 0 <= j < |es| ==> Replay(es).dmin <= es[j].ancDistMin && es[j].ancDistMax <= Replay(es).dmax
    ensures exists j :: 0 <= j < |es| && Replay(es).dmin == es[j].ancDistMin
    ensures exists j :: 0 <= j < |es| && Replay(es).dmax == es[j].ancDistMax
    decreases |es|
  {
    if |es| > 1 {
      var p := es[..|es| - 1];
      var a := Replay(p).anchor;
      assert a != {};
      ReplayWindow(p);
      assert forall j :: 0 <= j < |p| ==> p[j] == es[j];
      var jmin :| 0 <= jmin < |p| && Replay(p).dmin == p[jmin].ancDistMin;
      var jmax :| 0 <= jmax < |p| && Replay(p).dmax == p[jmax].ancDistMax;
      if Replay(es).dmin != es[|es| - 1].ancDistMin {
        assert Replay(es).dmin == es[jmin].ancDistMin;
      }
      if Replay(es).dmax != es[|es| - 1].ancDistMax {
        assert Replay(es).dmax == es[jmax].ancDistMax;
      }
    }
  }

  /** Once no anchor bit is common to a prefix, later members leave the
      distance window as that prefix set it. */
  lemma {:induction false} ReplayWindowFrozen(es: seq<RegInfo>, k: nat)
    requires 0 < k <= |es| && Replay(es[..k]).anchor == {}
    ensures Replay(es).anchor == {}
    ensures Replay(es).dmin == Replay(es[..k]).dmin && Replay(es).dmax == Replay(es[..k]).dmax
    decreases |es|
  {
    if k < |es| {
      var p := es[..|es| - 1];
      assert p[..k] == es[..k];
      ReplayWindowFrozen(p, k);
    } else {
      assert es[..k] == es;
    }
  }

  // ---------------------------------------------------------------------------
  // Building and editing a set
  // ---------------------------------------------------------------------------

  /** A member a set accepts: FIND_LONGEST is refused. */
  predicate Admissible(e: RegInfo) {
    !IsOptionOn(e.options, OPTION_FIND_LONGEST)
  }

  /** What every set built by the operations below satisfies: one encoding,
      no FIND_LONGEST member, and (when non-empty) the aggregates of the
      members. */
  predicate Valid(rs: RegSet) {
    (forall j :: 0 <= j < |rs.entries| ==> Admissible(rs.entries[j]) && rs.entries[j].enc == rs.enc)
    && (|rs.entries| > 0 ==> rs.agg == Replay(rs.entries))
  }

  /** The empty rs: UTF-8, no anchor, no window, both flags off. */
  function EmptySet(): (rs: RegSet)
    ensures Valid(rs) && rs.entries == []
  {
    RegSet([], Encoding.Utf8Enc, Agg({}, 0, 0, false, false))
  }

  /** `onig_regset_add`. */
  function Add(rs: RegSet, e: RegInfo): (r: Result<RegSet>)
    ensures r.Err? <==> !Admissible(e) || (|rs.entries| > 0 && e.enc != rs.enc)
    ensures r.Err? ==> r.code == ERR_INVALID_ARGUMENT
    ensures r.Ok? ==> r.value.entries == rs.entries + [e]
    ensures r.Ok? && Valid(rs) ==> Valid(r.value)
  {
    if !Admissible(e) then Err(ERR_INVALID_ARGUMENT)
    else if |rs.entries| > 0 && e.enc != rs.enc then Err(ERR_INVALID_ARGUMENT)
    else if |rs.entries| == 0 then Ok(RegSet([e], e.enc, Start(e)))
    else
      var es := rs.entries + [e];
      assert es[..|es| - 1] == rs.entries;
      Ok(RegSet(es, rs.enc, Absorb(rs.agg, e)))
  }

  /** Adds `regs[k..]` in order, stopping at the first refusal. */
  function AddAll(rs: RegSet, regs: seq<RegInfo>, k: nat): (r: Result<RegSet>)
    requires k <= |regs|
    requires Valid(rs) && rs.entries == regs[..k]
    ensures r.Ok? ==> Valid(r.value) && r.value.entries == regs
    ensures r.Err? ==> r.code == ERR_INVALID_ARGUMENT
    ensures r.Ok? <==> forall j :: k <= j < |regs| ==> Admissible(regs[j]) && (j > 0 ==> regs[j].enc == regs[0].enc)
    decreases |regs| - k
  {
    if k == |regs| then
      assert regs[..k] == regs;
      Ok(rs)
    else
      assert k > 0 ==> rs.entries[0] == regs[0];
      match Add(rs, regs[k])
      case Err(c) => Err(c)
      case Ok(s2) =>
        assert regs[..k + 1] == regs[..k] + [regs[k]];
        AddAll(s2, regs, k + 1)
  }

  /** `onig_regset_new`: the set of `regs`, or the error of the first one
      refused. */
  function NewSet(regs: seq<RegInfo>): (r: Result<RegSet>)
    ensures r.Ok? ==> Valid(r.value) && r.value.entries == regs
    ensures r.Err? ==> r.code == ERR_INVALID_ARGUMENT
    ensures r.Ok? <==> forall j :: 0 <= j < |regs| ==> Admissible(regs[j]) && regs[j].enc == regs[0].enc
  {
    assert regs[..0] == [];
    AddAll(EmptySet(), regs, 0)
  }

  /** The aggregates recomputed by replaying the members; an emptied set
      keeps its previous aggregates and encoding. */
  function Recompute(rs: RegSet): RegSet {
    if |rs.entries| == 0 then rs
    else RegSet(rs.entries, rs.entries[0].enc, Replay(rs.entries))
  }

  /** `onig_regset_replace`: `None` removes member `at`, `Some(e)` puts `e`
      in its place. */
  function Replace(rs: RegSet, at: nat, reg: Option<RegInfo>): (r: Result<RegSet>)
    ensures r.Err? <==> at >= |rs.entries|
                        || (reg.Some? && (!Admissible(reg.value)
                                          || (|rs.entries| > 1 && reg.value.enc != rs.enc)))
    ensures r.Err? ==> r.code == ERR_INVALID_ARGUMENT
    ensures r.Ok? && reg.None? ==> r.value.entries == rs.entries[..at] + rs.entries[at + 1..]
    ensures r.Ok? && reg.Some? ==> r.value.entries == rs.entries[at := reg.value]
    ensures r.Ok? && |r.value.entries| > 0 ==> r.value.agg == Replay(r.value.entries)
    ensures r.Ok? && |r.value.entries| == 0 ==> r.value.agg == rs.agg
    ensures r.Ok? && Valid(rs) ==> Valid(r.value)
  {
    if at >= |rs.entries| then Err(ERR_INVALID_ARGUMENT)
    else match reg
      case None =>
        var es := rs.entries[..at] + rs.entries[at + 1..];
        assert forall j :: 0 <= j < |es| ==> es[j] == rs.entries[if j < at then j else j + 1];
        Ok(Recompute(rs.(entries := es)))
      case Some(e) =>
        if !Admissible(e) then Err(ERR_INVALID_ARGUMENT)
        else if |rs.entries| > 1 && e.enc != rs.enc then Err(ERR_INVALID_ARGUMENT)
        else Ok(Recompute(rs.(entries := rs.entries[at := e])))
  }

  /** `onig_regset_number_of_regex`. */
  function NumberOfRegex(rs: RegSet): (n: int)
    ensures n == |rs.entries|
  {
    |rs.entries|
  }

  /** `onig_regset_get_regex`: member `at`, if there is one. */
  function GetRegex(rs: RegSet, at: nat): (r: Option<RegInfo>)
    ensures r.None? <==> at >= |rs.entries|
    ensures r.Some? ==> r.value == rs.entries[at]
  {
    if at < |rs.entries| then Some(rs.entries[at]) else None
  }

  // ---------------------------------------------------------------------------
  // Trying the members in order
  // ---------------------------------------------------------------------------

  /** None of the members `i..k` that are not skipped answers anything but
      MISMATCH. */
  ghost predicate AllMismatch(skip: nat -> bool, attempt: nat -> int, i: nat, k: nat) {
    forall j :: i <= j < k && !skip(j) ==> attempt(j) == MISMATCH
  }

  /** Tries members `i..n` in order, skipping those `skip` names: the first
      match gives the member's index, the first error is passed on, and
      MISMATCH means no member decided. */
  function TryEach(n: nat, skip: nat -> bool, attempt: nat -> int, i: nat): (r: int)
    ensures r >= 0 ==> i <= r < n && !skip(r) && attempt(r) >= 0 && AllMismatch(skip, attempt, i, r)
    ensures r == MISMATCH <==> AllMismatch(skip, attempt, i, n)
    ensures r < MISMATCH ==> exists k :: i <= k < n && !skip(k) && attempt(k) == r && AllMismatch(skip, attempt, i, k)
    decreases if i <= n then n - i else 0
  {
    if i >= n then MISMATCH
    else if skip(i) then TryEach(n, skip, attempt, i + 1)
    else
      var r := attempt(i);
      if r >= 0 then i
      else if r != MISMATCH then r
      else TryEach(n, skip, attempt, i + 1)
  }

  // ---------------------------------------------------------------------------
  // Position lead
  // ---------------------------------------------------------------------------

  /** The positions the position-lead scan visits from `s`: every character
      start before `range`. */
  function Positions(enc: Encoding.Enc, str: seq<Byte>, s: nat, range: nat): (t: seq<nat>)
    ensures forall j :: 0 <= j < |t| ==> s <= t[j] < range
    ensures |t| > 0 ==> t[0] == s
    decreases if s < range then range - s else 0
  {
    if s >= range then [] else [s] + Positions(enc, str, s + Exec.EncLen(enc, str, s), range)
  }

  /** Reading the byte before `s` is out of bounds. */
  predicate PrevOutOfBounds(anycharInf: bool, str: seq<Byte>, s: nat) {
    anycharInf && s > |str|
  }

  /** Whether the byte before `s` is a newline; true when the set has no
      ANYCHAR_INF member or at the start of the subject. */
  predicate PrevIsNewline(anycharInf: bool, str: seq<Byte>, s: nat) {
    if anycharInf && 0 < s <= |str| then str[s - 1] == NEWLINE else true
  }

  /** A member anchored on `.*` is not tried after a non-newline. */
  function SkipAt(es: seq<RegInfo>, anycharInf: bool, str: seq<Byte>, s: nat): nat -> bool {
    (k: nat) => k < |es| && HasAnycharInf(es[k]) && !PrevIsNewline(anycharInf, str, s)
  }

  /** Each member matched at `s`. */
  function AtPos(matchAt: (nat, nat) -> int, s: nat): nat -> int {
    (k: nat) => matchAt(k, s)
  }

  /** No member tried at `s` decides. */
  ghost predicate QuietAt(es: seq<RegInfo>, anycharInf: bool, str: seq<Byte>,
                          matchAt: (nat, nat) -> int, s: nat)
  {
    AllMismatch(SkipAt(es, anycharInf, str, s), AtPos(matchAt, s), 0, |es|)
  }

  /** What the position lead promises over the positions `ps` it visits:
      a member index comes with the first position where a member decides
      and the first member there that matches; MISMATCH exactly when no
      member decides anywhere and no visit reads out of bounds; an error
      comes with position 0; a panic needs an out-of-bounds read. */
  ghost predicate FirstDecidingPosition(es: seq<RegInfo>, anycharInf: bool, str: seq<Byte>,
                                        matchAt: (nat, nat) -> int, ps: seq<nat>, r: SetReply)
  {
    && (r.Reply? && r.result >= 0 ==>
          && r.result < |es| && r.pos in ps
          && !SkipAt(es, anycharInf, str, r.pos)(r.result) && matchAt(r.result, r.pos) >= 0
          && AllMismatch(SkipAt(es, anycharInf, str, r.pos), AtPos(matchAt, r.pos), 0, r.result)
          && forall q :: q in ps && q < r.pos ==> QuietAt(es, anycharInf, str, matchAt, q))
    && (r == Reply(MISMATCH, 0) <==> forall q :: q in ps ==>
          !PrevOutOfBounds(anycharInf, str, q) && QuietAt(es, anycharInf, str, matchAt, q))
    && (r.Reply? && r.result < MISMATCH ==> r.pos == 0)
    && (r.Panicked? ==> exists q :: q in ps && PrevOutOfBounds(anycharInf, str, q))
  }

  /** `regset_search_body_position_lead`: at each position in turn, the
      members in order. A match gives `(member, position)`, an error
      `(error, 0)`, and no decision anywhere `(MISMATCH, 0)`. */
  function PositionLeadFrom(es: seq<RegInfo>, enc: Encoding.Enc, anycharInf: bool, str: seq<Byte>,
                            matchAt: (nat, nat) -> int, s: nat, range: nat): (r: SetReply)
    ensures FirstDecidingPosition(es, anycharInf, str, matchAt, Positions(enc, str, s, range), r)
    decreases if s < range then range - s else 0
  {
    if s >= range then Reply(MISMATCH, 0)
    else if PrevOutOfBounds(anycharInf, str, s) then Panicked
    else
      var r := TryEach(|es|, SkipAt(es, anycharInf, str, s), AtPos(matchAt, s), 0);
      if r >= 0 then Reply(r, s)
      else if r != MISMATCH then Reply(r, 0)
      else
        var rest := PositionLeadFrom(es, enc, anycharInf, str, matchAt, s + Exec.EncLen(enc, str, s), range);
        assert Positions(enc, str, s, range) == [s] + Positions(enc, str, s + Exec.EncLen(enc, str, s), range);
        rest
  }

  // ---------------------------------------------------------------------------
  // Regex lead
  // ---------------------------------------------------------------------------

  /** `regset_search_body_regex_lead` from member `i`: each member searches
      up to `ep`, and a match strictly before `ep` becomes the answer and
      the new `ep`; a match at 0 ends the loop, and so does any match when
      `priority` holds. Errors are passed over. */
  function RegexLeadFrom(n: nat, searchUpTo: (nat, nat) -> int, priority: bool,
                         i: nat, ep: nat, index: int, pos: int): (r: SetReply)
    requires index >= MISMATCH && pos >= 0
    ensures r.Reply? && r.result >= MISMATCH && r.pos >= 0
    ensures r.result >= 0 ==> r.result == index || i <= r.result < n
    decreases if i <= n then n - i else 0
  {
    if i >= n then Reply(index, pos)
    else
      var r := searchUpTo(i, ep);
      if r > 0 then
        if r < ep then
          if priority then Reply(i, r) else RegexLeadFrom(n, searchUpTo, priority, i + 1, r, i, r)
        else RegexLeadFrom(n, searchUpTo, priority, i + 1, ep, index, pos)
      else if r == 0 then Reply(i, 0)
      else RegexLeadFrom(n, searchUpTo, priority, i + 1, ep, index, pos)
  }

  function RegexLeadSearch(n: nat, searchUpTo: (nat, nat) -> int, priority: bool, range: nat): (r: SetReply)
    ensures r.Reply? && r.result >= MISMATCH && r.pos >= 0 && r.result < n
  {
    RegexLeadFrom(n, searchUpTo, priority, 0, range, MISMATCH, 0)
  }

  /** `searchUpTo` is the forward search of members whose earliest match at
      or after the start is `first(i)`: it finds that match when it lies at
      or before the range, and nothing otherwise. */
  ghost predicate SearchesBy(n: nat, searchUpTo: (nat, nat) -> int, first: nat -> Option<nat>) {
    forall i, ep :: 0 <= i < n ==>
      searchUpTo(i, ep) == if first(i).Some? && first(i).value <= ep then first(i).value else MISMATCH
  }

  /** A member the regex lead can answer with: it matches before the range
      or at 0. */
  ghost predicate Eligible(first: nat -> Option<nat>, range: nat, i: nat) {
    first(i).Some? && (first(i).value < range || first(i).value == 0)
  }

  /** `(i, first(i))` is the least eligible pair among members `0..k`, by
      position and then by index. */
  ghost predicate LeastSoFar(first: nat -> Option<nat>, range: nat, k: nat, i: nat) {
    Eligible(first, range, i)
    && forall j :: 0 <= j < k && Eligible(first, range, j) ==>
         first(j).value > first(i).value || (first(j).value == first(i).value && j >= i)
  }

  /** The loop state of the regex lead after members `0..i`. */
  ghost predicate LeadState(first: nat -> Option<nat>, range: nat, i: nat, ep: nat, index: int, pos: int) {
    if index == MISMATCH then ep == range && pos == 0 && forall j :: 0 <= j < i ==> !Eligible(first, range, j)
    else 0 <= index < i && pos > 0 && pos == ep && first(index) == Some(pos) && LeastSoFar(first, range, i, index)
  }

  lemma {:induction false} RegexLeadFromLeast(n: nat, searchUpTo: (nat, nat) -> int, first: nat -> Option<nat>,
                                              range: nat, i: nat, ep: nat, index: int, pos: int)
    requires SearchesBy(n, searchUpTo, first)
    requires i <= n && index >= MISMATCH && pos >= 0 && LeadState(first, range, i, ep, index, pos)
    ensures var r := RegexLeadFrom(n, searchUpTo, false, i, ep, index, pos);
      && (r.result == MISMATCH <==> forall j :: 0 <= j < n ==> !Eligible(first, range, j))
      && (r.result >= 0 ==> r.result < n && LeastSoFar(first, range, n, r.result) && r.pos == first(r.result).value)
    decreases n - i
  {
    if i < n {
      var r := searchUpTo(i, ep);
      if r > 0 && r < ep {
        RegexLeadFromLeast(n, searchUpTo, first, range, i + 1, r, i, r);
      } else if r == 0 {
        var res := RegexLeadFrom(n, searchUpTo, false, i, ep, index, pos);
        assert res == Reply(i, 0);
        assert LeastSoFar(first, range, n, i);
      } else {
        RegexLeadFromLeast(n, searchUpTo, first, range, i + 1, ep, index, pos);
      }
    }
  }

  /** The regex lead answers with the member whose match starts earliest,
      the lower index winning a tie, and MISMATCH when no member matches
      before the range (or at 0). */
  lemma RegexLeadEarliest(n: nat, searchUpTo: (nat, nat) -> int, first: nat -> Option<nat>, range: nat)
    requires SearchesBy(n, searchUpTo, first)
    ensures var r := RegexLeadSearch(n, searchUpTo, false, range);
      && (r.result == MISMATCH <==> forall j :: 0 <= j < n ==> !Eligible(first, range, j))
      && (r.result >= 0 ==> LeastSoFar(first, range, n, r.result) && r.pos == first(r.result).value)
  {
    RegexLeadFromLeast(n, searchUpTo, first, range, 0, range, MISMATCH, 0);
  }

  lemma {:induction false} PriorityFromFirst(n: nat, searchUpTo: (nat, nat) -> int, first: nat -> Option<nat>,
                                             range: nat, i: nat)
    requires SearchesBy(n, searchUpTo, first)
    requires i <= n && forall j :: 0 <= j < i ==> !Eligible(first, range, j)
    ensures var r := RegexLeadFrom(n, searchUpTo, true, i, range, MISMATCH, 0);
      && (r.result == MISMATCH <==> forall j :: 0 <= j < n ==> !Eligible(first, range, j))
      && (r.result >= 0 ==> Eligible(first, range, r.result) && r.pos == first(r.result).value
                            && forall j :: 0 <= j < r.result ==> !Eligible(first, range, j))
    decreases n - i
  {
    if i < n {
      var r := searchUpTo(i, range);
      if !(r > 0 && r < range) && r != 0 {
        assert !Eligible(first, range, i);
        PriorityFromFirst(n, searchUpTo, first, range, i + 1);
      } else {
        assert Eligible(first, range, i);
      }
    }
  }

  /** With PriorityToRegexOrder the answer is the first member, in order,
      that matches before the range (or at 0). */
  lemma PriorityFirstMember(n: nat, searchUpTo: (nat, nat) -> int, first: nat -> Option<nat>, range: nat)
    requires SearchesBy(n, searchUpTo, first)
    ensures var r := RegexLeadSearch(n, searchUpTo, true, range);
      && (r.result == MISMATCH <==> forall j :: 0 <= j < n ==> !Eligible(first, range, j))
      && (r.result >= 0 ==> Eligible(first, range, r.result) && r.pos == first(r.result).value
                            && forall j :: 0 <= j < r.result ==> !Eligible(first, range, j))
  {
    PriorityFromFirst(n, searchUpTo, first, range, 0);
  }

  // ---------------------------------------------------------------------------
  // The search
  // ---------------------------------------------------------------------------

  function SatSub(a: nat, b: nat): (r: nat)
    ensures r == if a >= b then a - b else 0
  {
    if a >= b then a - b else 0
  }

  /** The positions an anchored set still has to try, or none. */
  datatype Window = Window(lo: nat, hi: nat) | NoWindow | WindowPanicked

  /** The window for an end anchor: the match ends between `minSemi` and
      `maxSemi`, at a distance between `dmin` and `dmax` from its start. */
  function EndWindow(dmin: nat, dmax: nat, start: nat, range: nat, minSemi: nat, maxSemi: nat): (w: Window)
    requires start <= range
    ensures w.Window? ==> start <= w.lo <= w.hi
    ensures w.Window? ==> w.hi <= range || w.hi == 1
  {
    if maxSemi < dmin then NoWindow
    else
      var lo := if SatSub(minSemi, start) > dmax && dmax != INFINITE_LEN then minSemi - dmax else start;
      var hi := if SatSub(maxSemi, SatSub(range, 1)) < dmin then SatSub(maxSemi, dmin) + 1 else range;
      if lo > hi then NoWindow else Window(lo, hi)
  }

  /** The window keeps every start position from which a match could end
      between `minSemi` and `maxSemi` within the anchor distances. */
  lemma EndWindowKeeps(dmin: nat, dmax: nat, start: nat, range: nat, minSemi: nat, maxSemi: nat, p: nat, e: nat)
    requires start <= range && start <= p < range && minSemi <= e <= maxSemi
    requires p + dmin <= e && (dmax == INFINITE_LEN || e <= p + dmax)
    ensures var w := EndWindow(dmin, dmax, start, range, minSemi, maxSemi);
      w.Window? && w.lo <= p < w.hi
  {
  }

  /** The positions the set's common anchor leaves to try between `start`
      and `range`. */
  function AnchorWindow(rs: RegSet, str: seq<Byte>, end: nat, start: nat, range: nat): (w: Window)
    requires start <= range
    ensures rs.agg.anchor == {} || |str| == 0 ==> w == Window(start, range)
    ensures w.Window? ==> start <= w.lo
    ensures w.WindowPanicked? ==> end > |str|
  {
    var a := rs.agg.anchor;
    if a == {} || |str| == 0 then Window(start, range)
    else if ANCR_BEGIN_POSITION in a then Window(start, start + 1)
    else if ANCR_BEGIN_BUF in a then (if start != 0 then NoWindow else Window(start, 1))
    else if ANCR_END_BUF in a then EndWindow(rs.agg.dmin, rs.agg.dmax, start, range, end, end)
    else if ANCR_SEMI_END_BUF in a then
      if end > |str| then WindowPanicked
      else
        var minSemi := if end > 0 && str[end - 1] == NEWLINE then end - 1 else end;
        EndWindow(rs.agg.dmin, rs.agg.dmax, start, range, minSemi, end)
    else if ANCR_ANYCHAR_INF_ML in a then Window(start, start + 1)
    else Window(start, range)
  }

  /** Members with a non-zero threshold length are not tried on an empty
      range. */
  function ThresholdSkip(es: seq<RegInfo>): nat -> bool {
    (k: nat) => k < |es| && es[k].thresholdLen != 0
  }

  lemma ThresholdQuiet(es: seq<RegInfo>, matchAt: (nat, nat) -> int, start: nat)
    ensures AllMismatch(ThresholdSkip(es), AtPos(matchAt, start), 0, |es|)
       <==> forall j :: 0 <= j < |es| && es[j].thresholdLen == 0 ==> matchAt(j, start) == MISMATCH
  {
    var skip := ThresholdSkip(es);
    var att := AtPos(matchAt, start);
    if forall j :: 0 <= j < |es| && es[j].thresholdLen == 0 ==> matchAt(j, start) == MISMATCH {
      forall j: nat | 0 <= j < |es| && !skip(j)
        ensures att(j) == MISMATCH
      {
        assert es[j].thresholdLen == 0;
      }
    } else {
      var j :| 0 <= j < |es| && es[j].thresholdLen == 0 && matchAt(j, start) != MISMATCH;
      assert !skip(j) && att(j) != MISMATCH;
    }
  }

  /** The empty-range case: each member whose threshold length is 0 is
      tried at `start` in order. */
  function EmptyRangeSearch(es: seq<RegInfo>, matchAt: (nat, nat) -> int, start: nat): (r: SetReply)
    ensures r.Reply?
    ensures r.result >= 0 ==> r.result < |es| && r.pos == start && es[r.result].thresholdLen == 0
                              && matchAt(r.result, start) >= 0
    ensures r.result == MISMATCH <==> forall j :: 0 <= j < |es| && es[j].thresholdLen == 0 ==> matchAt(j, start) == MISMATCH
  {
    ThresholdQuiet(es, matchAt, start);
    var r := TryEach(|es|, ThresholdSkip(es), AtPos(matchAt, start), 0);
    if r >= 0 then Reply(r, start) else if r != MISMATCH then Reply(r, 0) else Reply(MISMATCH, 0)
  }

  /** Each member searched from `from`, up to the range given. */
  function MemberSearch(searchIn: (nat, nat, nat) -> int, from: nat): (nat, nat) -> int {
    (i: nat, ep: nat) => searchIn(i, from, ep)
  }

  /** Member `i`, searched from `from`, finds its earliest match `first(i)`
      when it lies at or before the range, and nothing otherwise. */
  ghost predicate SearchesFrom(n: nat, searchIn: (nat, nat, nat) -> int, from: nat, first: nat -> Option<nat>) {
    forall i, ep :: 0 <= i < n ==>
      searchIn(i, from, ep) == if first(i).Some? && first(i).value <= ep then first(i).value else MISMATCH
  }

  /** What the regex lead promises: MISMATCH exactly when no member is
      eligible; otherwise a member at its earliest match, which is the
      earliest match of all (the lower index winning a tie) or, with
      `priority`, the first eligible member in order. */
  ghost predicate RegexLeadAnswer(n: nat, first: nat -> Option<nat>, range: nat, priority: bool, r: SetReply) {
    && r.Reply?
    && (r.result == MISMATCH <==> forall j :: 0 <= j < n ==> !Eligible(first, range, j))
    && (r.result >= 0 ==>
          && r.result < n && first(r.result).Some? && r.pos == first(r.result).value
          && if priority then Eligible(first, range, r.result) && forall j :: 0 <= j < r.result ==> !Eligible(first, range, j)
             else LeastSoFar(first, range, n, r.result))
  }

  /** Both regex-lead orders keep their promise. */
  lemma RegexLeadSearchAnswer(n: nat, searchIn: (nat, nat, nat) -> int, from: nat, first: nat -> Option<nat>,
                              priority: bool, range: nat)
    requires SearchesFrom(n, searchIn, from, first)
    ensures RegexLeadAnswer(n, first, range, priority, RegexLeadSearch(n, MemberSearch(searchIn, from), priority, range))
  {
    assert SearchesBy(n, MemberSearch(searchIn, from), first);
    if priority {
      PriorityFirstMember(n, MemberSearch(searchIn, from), first, range);
    } else {
      RegexLeadEarliest(n, MemberSearch(searchIn, from), first, range);
    }
  }

  /** `onig_regset_search`. `matchAt(i, s)` is member `i` matched at `s`;
      `searchIn(i, s, r)` is member `i` searched from `s` up to `r`. */
  function Search(rs: RegSet, str: seq<Byte>, end: nat, start: nat, range: nat, lead: Lead,
                  matchAt: (nat, nat) -> int, searchIn: (nat, nat, nat) -> int): (r: SetReply)
    ensures |rs.entries| == 0 || start > end || start > |str| ==> r == Reply(MISMATCH, 0)
    ensures |rs.entries| > 0 && start <= end && start <= |str| && |str| > 0 && range < start
            ==> r == Reply(ERR_INVALID_ARGUMENT, 0)
    ensures r.Reply? && r.result >= 0 ==> r.result < |rs.entries|
    ensures r.Reply? && r.result >= 0 && (lead == PositionLead || start == end)
            ==> start <= r.pos && matchAt(r.result, r.pos) >= 0
  {
    var es := rs.entries;
    if |es| == 0 || start > end || start > |str| then Reply(MISMATCH, 0)
    else if |str| > 0 && range < start then Reply(ERR_INVALID_ARGUMENT, 0)
    else if start == end then EmptyRangeSearch(es, matchAt, start)
    else
      match AnchorWindow(rs, str, end, start, range)
      case NoWindow => Reply(MISMATCH, 0)
      case WindowPanicked => Panicked
      case Window(lo, hi) =>
        if lead == PositionLead then PositionLeadFrom(es, rs.enc, rs.agg.anycharInf, str, matchAt, lo, hi)
        else RegexLeadSearch(|es|, MemberSearch(searchIn, lo), lead == PriorityToRegexOrder, range)
  }

  /** `onig_regset_search_with_param`: one match parameter per member, no
      anchor window; `searchIn` runs each member with its parameter. */
  function SearchWithParam(rs: RegSet, str: seq<Byte>, end: nat, start: nat, range: nat, lead: Lead,
                           numParams: nat, matchAt: (nat, nat) -> int,
                           searchIn: (nat, nat, nat) -> int): (r: SetReply)
    ensures |rs.entries| == 0 ==> r == Reply(MISMATCH, 0)
    ensures 0 < |rs.entries| && numParams < |rs.entries| ==> r == Reply(ERR_INVALID_ARGUMENT, 0)
    ensures r.Reply? && r.result >= 0 ==> r.result < |rs.entries|
    ensures r.Reply? && r.result >= 0 && (lead == PositionLead || start == end)
            ==> start <= r.pos && matchAt(r.result, r.pos) >= 0
  {
    var es := rs.entries;
    if |es| == 0 then Reply(MISMATCH, 0)
    else if numParams < |es| then Reply(ERR_INVALID_ARGUMENT, 0)
    else if start > end || start > |str| then Reply(MISMATCH, 0)
    else if |str| > 0 && range < start then Reply(ERR_INVALID_ARGUMENT, 0)
    else if start == end then EmptyRangeSearch(es, matchAt, start)
    else if lead != PositionLead then
      RegexLeadSearch(|es|, MemberSearch(searchIn, start), lead == PriorityToRegexOrder, range)
    else PositionLeadFrom(es, rs.enc, rs.agg.anycharInf, str, matchAt, start, range)
  }

  /** A search that is not empty, with the position lead: the answer is
      the first position of the anchor window where a member decides, and
      the first member there; MISMATCH exactly when none decides anywhere
      in the window, and also when the anchor leaves no window. */
  lemma SearchPositionLead(rs: RegSet, str: seq<Byte>, end: nat, start: nat, range: nat,
                           matchAt: (nat, nat) -> int, searchIn: (nat, nat, nat) -> int)
    requires |rs.entries| > 0 && start < end && start <= |str| && start <= range
    ensures var r := Search(rs, str, end, start, range, PositionLead, matchAt, searchIn);
      match AnchorWindow(rs, str, end, start, range)
      case NoWindow => r == Reply(MISMATCH, 0)
      case WindowPanicked => r.Panicked?
      case Window(lo, hi) =>
        FirstDecidingPosition(rs.entries, rs.agg.anycharInf, str, matchAt, Positions(rs.enc, str, lo, hi), r)
  {
  }

  /** A search that is not empty, with a regex lead: inside the anchor
      window the regex-lead promise holds for the members' earliest
      matches from the window's start. */
  lemma SearchRegexLead(rs: RegSet, str: seq<Byte>, end: nat, start: nat, range: nat, lead: Lead,
                        matchAt: (nat, nat) -> int, searchIn: (nat, nat, nat) -> int, first: nat -> Option<nat>)
    requires |rs.entries| > 0 && start < end && start <= |str| && start <= range && lead != PositionLead
    requires AnchorWindow(rs, str, end, start, range).Window? ==>
      SearchesFrom(|rs.entries|, searchIn, AnchorWindow(rs, str, end, start, range).lo, first)
    ensures var r := Search(rs, str, end, start, range, lead, matchAt, searchIn);
      match AnchorWindow(rs, str, end, start, range)
      case NoWindow => r == Reply(MISMATCH, 0)
      case WindowPanicked => r.Panicked?
      case Window(lo, hi) => RegexLeadAnswer(|rs.entries|, first, range, lead == PriorityToRegexOrder, r)
  {
    var w := AnchorWindow(rs, str, end, start, range);
    if w.Window? {
      RegexLeadSearchAnswer(|rs.entries|, searchIn, w.lo, first, lead == PriorityToRegexOrder, range);
    }
  }

  /** `onig_regset_search_with_param`, not empty, with the position lead:
      the first deciding position from `start` to `range`, and MISMATCH
      exactly when no member decides there. */
  lemma SearchWithParamPositionLead(rs: RegSet, str: seq<Byte>, end: nat, start: nat, range: nat, numParams: nat,
                                    matchAt: (nat, nat) -> int, searchIn: (nat, nat, nat) -> int)
    requires |rs.entries| <= numParams && |rs.entries| > 0 && start < end && start <= |str| && start <= range
    ensures FirstDecidingPosition(rs.entries, rs.agg.anycharInf, str, matchAt, Positions(rs.enc, str, start, range),
                                  SearchWithParam(rs, str, end, start, range, PositionLead, numParams, matchAt, searchIn))
  {
  }

  /** `onig_regset_search_with_param`, not empty, with a regex lead: the
      regex-lead promise for the members' earliest matches from `start`. */
  lemma SearchWithParamRegexLead(rs: RegSet, str: seq<Byte>, end: nat, start: nat, range: nat, lead: Lead,
                                 numParams: nat, matchAt: (nat, nat) -> int, searchIn: (nat, nat, nat) -> int,
                                 first: nat -> Option<nat>)
    requires |rs.entries| <= numParams && |rs.entries| > 0 && start < end && start <= |str| && start <= range
    requires lead != PositionLead && SearchesFrom(|rs.entries|, searchIn, start, first)
    ensures RegexLeadAnswer(|rs.entries|, first, range, lead == PriorityToRegexOrder,
                            SearchWithParam(rs, str, end, start, range, lead, numParams, matchAt, searchIn))
  {
    RegexLeadSearchAnswer(|rs.entries|, searchIn, start, first, lead == PriorityToRegexOrder, range);
  }
}
