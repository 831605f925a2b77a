/** The backtracking virtual machine of regexec.rs: the stack of choice
    points and capture frames, the instruction step of `match_at` for the
    literal, class, capture, branching, repeat, empty-check and mark
    instructions, and the drivers `onig_match` and `onig_search`. */
module Exec {
  import opened Wrappers
  import opened Oniguruma
  import opened Regint
  import opened Bitset
  import Encoding

  // ---------------------------------------------------------------------------
  // Stack
  // ---------------------------------------------------------------------------

  /** Where a capture boundary is recorded: nowhere yet, in a stack frame,
      or directly as a string position. */
  datatype MemPtr = Invalid | StackIdx(idx: nat) | Pos(pos: nat)

  /** One stack entry. `zid` is the group, repeat, empty-check or mark id;
      `pstr` a string position. */
  datatype StackEntry =
    | AltEntry(pcode: nat, pstr: nat, zid: int, isSuper: bool)
    | MemStartEntry(zid: int, pstr: nat, prevStart: MemPtr, prevEnd: MemPtr)
    | MemEndEntry(zid: int, pstr: nat, prevStart: MemPtr, prevEnd: MemPtr)
    | MemEndMarkEntry(zid: int)
    | RepeatIncEntry(zid: int, count: int)
    | EmptyCheckStartEntry(zid: int, pstr: nat)
    | EmptyCheckEndEntry(zid: int)
    | MarkEntry(zid: int, pos: Option<nat>)
    | SaveValEntry(zid: int, saveType: int, v: nat)
    | CallFrameEntry(retAddr: nat)
    | ReturnEntry
    | VoidEntry

  /** The per-group start and end records (`mem_start_stk`, `mem_end_stk`). */
  datatype Mem = Mem(start: seq<MemPtr>, end: seq<MemPtr>)

  /** Every capture frame on the stack names a group both arrays hold. The
      matcher indexes the arrays before pushing a frame, so a frame with any
      other group is never pushed. */
  predicate FramesIndexed(stack: seq<StackEntry>, mem: Mem) {
    forall i :: 0 <= i < |stack| && (stack[i].MemStartEntry? || stack[i].MemEndEntry?) ==>
      0 <= stack[i].zid < |mem.start| && stack[i].zid < |mem.end|
  }

  /** Whether popping `e` at `level` puts back the group's saved records:
      never at Free level, start frames at MemStart level, start and end
      frames at All level. */
  predicate Restores(e: StackEntry, level: StackPopLevel) {
    (e.MemStartEntry? && level != PopFree) || (e.MemEndEntry? && level == PopAll)
  }

  /** Popping one frame: its saved records come back when it restores. */
  function Restore(e: StackEntry, level: StackPopLevel, mem: Mem): (r: Mem)
    requires (e.MemStartEntry? || e.MemEndEntry?) ==> 0 <= e.zid < |mem.start| && e.zid < |mem.end|
    ensures |r.start| == |mem.start| && |r.end| == |mem.end|
  {
    if Restores(e, level) then Mem(mem.start[e.zid := e.prevStart], mem.end[e.zid := e.prevEnd])
    else mem
  }

  /** The choice point `stack_pop` resumes from. */
  datatype AltTarget = AltTarget(pcode: nat, pstr: nat, zid: int)

  datatype Popped = Popped(stack: seq<StackEntry>, mem: Mem, alt: Option<AltTarget>)

  /** `stack_pop`: removes entries from the top, restoring capture records
      as the level says, up to and including the first choice point, whose
      target it returns; nothing when the stack runs out first. */
  function StackPop(stack: seq<StackEntry>, level: StackPopLevel, mem: Mem): (r: Popped)
    requires FramesIndexed(stack, mem)
    ensures |r.mem.start| == |mem.start| && |r.mem.end| == |mem.end|
    ensures r.alt.None? <==> forall i :: 0 <= i < |stack| ==> !stack[i].AltEntry?
    ensures r.alt.None? ==> r.stack == []
    ensures r.alt.Some? ==>
      && |r.stack| < |stack|
      && r.stack == stack[..|r.stack|]
      && stack[|r.stack|].AltEntry?
      && r.alt.value == AltTarget(stack[|r.stack|].pcode, stack[|r.stack|].pstr, stack[|r.stack|].zid)
      && (forall j :: |r.stack| < j < |stack| ==> !stack[j].AltEntry?)
    decreases |stack|
  {
    if |stack| == 0 then Popped([], mem, None)
    else
      var e := stack[|stack| - 1];
      var rest := stack[..|stack| - 1];
      if e.AltEntry? then Popped(rest, mem, Some(AltTarget(e.pcode, e.pstr, e.zid)))
      else
        var mem' := Restore(e, level, mem);
        assert FramesIndexed(rest, mem') by {
          forall i | 0 <= i < |rest| ensures rest[i] == stack[i] { }
        }
        StackPop(rest, level, mem')
  }

  /** The first index at or above `lo` where a frame restoring group `g`
      sits, if any. */
  function LowestRestorer(stack: seq<StackEntry>, lo: nat, g: int, level: StackPopLevel): (r: Option<nat>)
    ensures r.None? <==> forall j :: lo <= j < |stack| ==> !(Restores(stack[j], level) && stack[j].zid == g)
    ensures r.Some? ==>
      && lo <= r.value < |stack|
      && Restores(stack[r.value], level) && stack[r.value].zid == g
      && (forall j :: lo <= j < r.value ==> !(Restores(stack[j], level) && stack[j].zid == g))
    decreases |stack| - lo
  {
    if lo >= |stack| then None
    else if Restores(stack[lo], level) && stack[lo].zid == g then Some(lo)
    else LowestRestorer(stack, lo + 1, g, level)
  }

  /** The records of group `g` once the frames from `lo` up are popped:
      those saved by the deepest frame there that restores `g`, or the
      current ones when none does. */
  function RestoredRecords(stack: seq<StackEntry>, lo: nat, g: int, level: StackPopLevel, mem: Mem)
    : (r: (MemPtr, MemPtr))
    requires 0 <= g < |mem.start| && g < |mem.end|
  {
    match LowestRestorer(stack, lo, g, level)
    case None => (mem.start[g], mem.end[g])
    case Some(k) => (stack[k].prevStart, stack[k].prevEnd)
  }

  /** The records group `g` has after `stack_pop` are those saved by the
      deepest popped frame that restores `g`, or the current ones when no
      popped frame does. The popped frames are the ones above the choice
      point, or all of them when there is none. */
  lemma {:induction false} StackPopRestores(stack: seq<StackEntry>, level: StackPopLevel, mem: Mem, g: int)
    requires FramesIndexed(stack, mem)
    requires 0 <= g < |mem.start| && g < |mem.end|
    ensures var r := StackPop(stack, level, mem);
      (r.mem.start[g], r.mem.end[g]) ==
        RestoredRecords(stack, if r.alt.Some? then |r.stack| + 1 else 0, g, level, mem)
    decreases |stack|
  {
    if |stack| > 0 && !stack[|stack| - 1].AltEntry? {
      StackPopUnfold(stack, level, mem);
      StackPopRestores(stack[..|stack| - 1], level, Restore(stack[|stack| - 1], level, mem), g);
      StackPopRestoresStep(stack, level, mem, g);
    }
  }

  /** The inductive step of StackPopRestores: popping a frame that is not a
      choice point and then the rest. */
  lemma StackPopRestoresStep(stack: seq<StackEntry>, level: StackPopLevel, mem: Mem, g: int)
    requires FramesIndexed(stack, mem)
    requires 0 <= g < |mem.start| && g < |mem.end|
    requires |stack| > 0 && !stack[|stack| - 1].AltEntry?
    requires var rest, mem' := stack[..|stack| - 1], Restore(stack[|stack| - 1], level, mem);
      FramesIndexed(rest, mem') &&
      var r := StackPop(rest, level, mem');
      (r.mem.start[g], r.mem.end[g]) ==
        RestoredRecords(rest, if r.alt.Some? then |r.stack| + 1 else 0, g, level, mem')
    ensures var r := StackPop(stack, level, mem);
      (r.mem.start[g], r.mem.end[g]) ==
        RestoredRecords(stack, if r.alt.Some? then |r.stack| + 1 else 0, g, level, mem)
  {
    var rest, mem' := stack[..|stack| - 1], Restore(stack[|stack| - 1], level, mem);
    StackPopUnfold(stack, level, mem);
    var r := StackPop(rest, level, mem');
    var lo := if r.alt.Some? then |r.stack| + 1 else 0;
    RestoredRecordsStep(stack, lo, g, level, mem);
  }

  /** Popping a frame that is not a choice point and going on. */
  lemma StackPopUnfold(stack: seq<StackEntry>, level: StackPopLevel, mem: Mem)
    requires FramesIndexed(stack, mem)
    requires |stack| > 0 && !stack[|stack| - 1].AltEntry?
    ensures FramesIndexed(stack[..|stack| - 1], Restore(stack[|stack| - 1], level, mem))
    ensures StackPop(stack, level, mem) == StackPop(stack[..|stack| - 1], level, Restore(stack[|stack| - 1], level, mem))
  {
    var rest := stack[..|stack| - 1];
    assert FramesIndexed(rest, Restore(stack[|stack| - 1], level, mem)) by {
      forall i | 0 <= i < |rest| ensures rest[i] == stack[i] { }
    }
  }

  /** Popping the top frame first and then the rest down to `lo` leaves the
      same records as taking the deepest restorer from `lo` up. */
  lemma RestoredRecordsStep(stack: seq<StackEntry>, lo: nat, g: int, level: StackPopLevel, mem: Mem)
    requires lo < |stack|
    requires 0 <= g < |mem.start| && g < |mem.end|
    requires var e := stack[|stack| - 1]; (e.MemStartEntry? || e.MemEndEntry?) ==> 0 <= e.zid < |mem.start| && e.zid < |mem.end|
    ensures RestoredRecords(stack[..|stack| - 1], lo, g, level, Restore(stack[|stack| - 1], level, mem))
      == RestoredRecords(stack, lo, g, level, mem)
  {
    var rest := stack[..|stack| - 1];
    LowestRestorerPrefix(stack, lo, g, level);
    var inRest := LowestRestorer(rest, lo, g, level);
    if inRest.Some? {
      assert stack[inRest.value] == rest[inRest.value];
    }
  }

  /** Looking for the lowest restorer in all but the top entry finds the
      same one as in the whole stack, unless only the top entry restores. */
  lemma {:induction false} LowestRestorerPrefix(stack: seq<StackEntry>, lo: nat, g: int, level: StackPopLevel)
    requires lo < |stack|
    ensures var rest := stack[..|stack| - 1];
      var e := stack[|stack| - 1];
      LowestRestorer(stack, lo, g, level) ==
        (if lo <= |rest| && LowestRestorer(rest, lo, g, level).Some? then LowestRestorer(rest, lo, g, level)
         else if Restores(e, level) && e.zid == g then Some(|stack| - 1) else None)
    decreases |stack| - lo
  {
    var rest := stack[..|stack| - 1];
    if lo < |stack| - 1 {
      assert stack[lo] == rest[lo];
      if !(Restores(stack[lo], level) && stack[lo].zid == g) {
        LowestRestorerPrefix(stack, lo + 1, g, level);
      }
    }
  }

  /** At Free level popping never touches the capture records. */
  lemma {:induction false} StackPopFreeKeepsMem(stack: seq<StackEntry>, mem: Mem)
    requires FramesIndexed(stack, mem)
    ensures StackPop(stack, PopFree, mem).mem == mem
    decreases |stack|
  {
    if |stack| > 0 && !stack[|stack| - 1].AltEntry? {
      StackPopUnfold(stack, PopFree, mem);
      StackPopFreeKeepsMem(stack[..|stack| - 1], mem);
    }
  }

  /** The topmost entry satisfying `f`, if any. */
  function TopWhere(stack: seq<StackEntry>, f: StackEntry -> bool): (r: Option<nat>)
    ensures r.None? <==> forall j :: 0 <= j < |stack| ==> !f(stack[j])
    ensures r.Some? ==> r.value < |stack| && f(stack[r.value]) && forall j :: r.value < j < |stack| ==> !f(stack[j])
    decreases |stack|
  {
    if |stack| == 0 then None
    else if f(stack[|stack| - 1]) then Some(|stack| - 1)
    else
      var r := TopWhere(stack[..|stack| - 1], f);
      assert forall j :: 0 <= j < |stack| - 1 ==> stack[..|stack| - 1][j] == stack[j];
      r
  }

  predicate IsMark(e: StackEntry, id: int) {
    e.MarkEntry? && e.zid == id
  }

  datatype MarkPopped = MarkPopped(stack: seq<StackEntry>, mem: Mem, pos: Option<nat>)

  /** `stack_pop_to_mark`: removes entries from the top, restoring the
      records saved in every start and end frame, up to and including the
      topmost mark with the id, whose saved position it returns; nothing
      when the stack runs out first. */
  function StackPopToMark(stack: seq<StackEntry>, markId: int, mem: Mem): (r: MarkPopped)
    requires FramesIndexed(stack, mem)
    ensures |r.mem.start| == |mem.start| && |r.mem.end| == |mem.end|
    ensures match TopWhere(stack, e => IsMark(e, markId))
      case None => r.stack == [] && r.pos.None?
      case Some(k) => r.stack == stack[..k] && r.pos == stack[k].pos
    decreases |stack|
  {
    if |stack| == 0 then MarkPopped([], mem, None)
    else
      var e := stack[|stack| - 1];
      var rest := stack[..|stack| - 1];
      if IsMark(e, markId) then MarkPopped(rest, mem, e.pos)
      else
        var mem' := Restore(e, PopAll, mem);
        assert FramesIndexed(rest, mem') by {
          forall i | 0 <= i < |rest| ensures rest[i] == stack[i] { }
        }
        var r := StackPopToMark(rest, markId, mem');
        assert TopWhere(stack, e => IsMark(e, markId)) == TopWhere(rest, e => IsMark(e, markId));
        r
  }

  /** The entries a cut voids: ordinary choice points and empty-check
      starts. Super choice points, marks and frames stay. */
  predicate IsVoidTarget(e: StackEntry) {
    (e.AltEntry? && !e.isSuper) || e.EmptyCheckStartEntry?
  }

  function Voided(e: StackEntry): (r: StackEntry)
  {
    if IsVoidTarget(e) then VoidEntry else e
  }

  /** The loop of `stack_void_to_mark` from index `i` down: the first mark
      with the id is voided and its saved position returned; on the way,
      void targets are voided. */
  function VoidDown(stack: seq<StackEntry>, i: nat, markId: int): (r: (seq<StackEntry>, Option<nat>))
    requires i <= |stack|
    ensures |r.0| == |stack|
    ensures forall j :: i <= j < |stack| ==> r.0[j] == stack[j]
    ensures match TopWhere(stack[..i], e => IsMark(e, markId))
      case None =>
        r.1.None? && forall j :: 0 <= j < i ==> r.0[j] == Voided(stack[j])
      case Some(k) =>
        && r.1 == stack[k].pos && r.0[k] == VoidEntry
        && (forall j :: 0 <= j < k ==> r.0[j] == stack[j])
        && (forall j :: k < j < i ==> r.0[j] == Voided(stack[j]))
    decreases i
  {
    if i == 0 then (stack, None)
    else
      var e := stack[i - 1];
      assert stack[..i][..i - 1] == stack[..i - 1];
      if IsMark(e, markId) then (stack[i - 1 := VoidEntry], e.pos)
      else if IsVoidTarget(e) then
        var r := VoidDown(stack[i - 1 := VoidEntry], i - 1, markId);
        assert stack[i - 1 := VoidEntry][..i - 1] == stack[..i - 1];
        r
      else VoidDown(stack, i - 1, markId)
  }

  /** `stack_void_to_mark`: the length never changes; the topmost mark with
      the id becomes void and its saved position is returned; every void
      target above it becomes void and all other entries stay. Without such
      a mark every void target is voided and nothing is returned. */
  function StackVoidToMark(stack: seq<StackEntry>, markId: int): (r: (seq<StackEntry>, Option<nat>))
    ensures |r.0| == |stack|
    ensures match TopWhere(stack, e => IsMark(e, markId))
      case None =>
        r.1.None? && forall j :: 0 <= j < |stack| ==> r.0[j] == Voided(stack[j])
      case Some(k) =>
        && r.1 == stack[k].pos && r.0[k] == VoidEntry
        && (forall j :: 0 <= j < k ==> r.0[j] == stack[j])
        && (forall j :: k < j < |stack| ==> r.0[j] == Voided(stack[j]))
  {
    assert stack[..|stack|] == stack;
    VoidDown(stack, |stack|, markId)
  }

  /** `stack_get_repeat_count`: the count of the topmost counter of repeat
      `zid`, 0 when there is none. */
  function GetRepeatCount(stack: seq<StackEntry>, zid: int): (c: int)
    decreases |stack|
  {
    if |stack| == 0 then 0
    else
      var e := stack[|stack| - 1];
      if e.RepeatIncEntry? && e.zid == zid then e.count else GetRepeatCount(stack[..|stack| - 1], zid)
  }

  predicate IsRepeatCounter(e: StackEntry, zid: int) {
    e.RepeatIncEntry? && e.zid == zid
  }

  lemma {:induction false} GetRepeatCountSpec(stack: seq<StackEntry>, zid: int)
    ensures GetRepeatCount(stack, zid) ==
      match TopWhere(stack, e => IsRepeatCounter(e, zid))
      case None => 0
      case Some(k) => stack[k].count
    decreases |stack|
  {
    if |stack| > 0 && !IsRepeatCounter(stack[|stack| - 1], zid) {
      var rest := stack[..|stack| - 1];
      GetRepeatCountSpec(rest, zid);
      assert TopWhere(stack, e => IsRepeatCounter(e, zid)) == TopWhere(rest, e => IsRepeatCounter(e, zid));
    }
  }

  /** `stack_empty_check`: whether the topmost empty-check start of `zid`
      recorded position `s`; false when there is none. */
  function EmptyCheck(stack: seq<StackEntry>, zid: int, s: nat): (b: bool)
    decreases |stack|
  {
    if |stack| == 0 then false
    else
      var e := stack[|stack| - 1];
      if e.EmptyCheckStartEntry? && e.zid == zid then e.pstr == s else EmptyCheck(stack[..|stack| - 1], zid, s)
  }

  predicate IsEmptyCheckStart(e: StackEntry, zid: int) {
    e.EmptyCheckStartEntry? && e.zid == zid
  }

  lemma {:induction false} EmptyCheckSpec(stack: seq<StackEntry>, zid: int, s: nat)
    ensures EmptyCheck(stack, zid, s) <==>
      match TopWhere(stack, e => IsEmptyCheckStart(e, zid))
      case None => false
      case Some(k) => stack[k].pstr == s
    decreases |stack|
  {
    if |stack| > 0 && !IsEmptyCheckStart(stack[|stack| - 1], zid) {
      var rest := stack[..|stack| - 1];
      EmptyCheckSpec(rest, zid, s);
      assert TopWhere(stack, e => IsEmptyCheckStart(e, zid)) == TopWhere(rest, e => IsEmptyCheckStart(e, zid));
    }
  }

  // ---------------------------------------------------------------------------
  // The machine
  // ---------------------------------------------------------------------------

  /** `usize::MAX`, the target of the bottom choice point. */
  const FINISH_PCODE: nat := 0xffff_ffff_ffff_ffff

  /** A signed value cast to `usize`: negative values wrap around. */
  function Usize(x: int): (r: nat)
    ensures 0 <= x <= FINISH_PCODE ==> r == x
    ensures -(FINISH_PCODE as int) <= x < 0 ==> r == x + FINISH_PCODE + 1
  {
    x % (FINISH_PCODE + 1)
  }

  /** The parts of a compiled regex the matcher reads. */
  datatype Program = Program(ops: seq<Operation>, repeatRange: seq<RepeatRange>, numMem: nat,
                             popLevel: StackPopLevel, options: Options, enc: Encoding.Enc)

  /** One call of `match_at`: the subject, its end, the right limit for
      reading, the start position and the effective options. */
  datatype Ctx = Ctx(str: seq<Byte>, end: nat, rightRange: nat, sstart: nat, options: Options)

  /** The callers pass an end within the subject and a right limit within
      the end; every slice the matcher takes relies on it. */
  predicate ValidCtx(ctx: Ctx) {
    ctx.rightRange <= ctx.end <= |ctx.str|
  }

  /** The matcher's registers: instruction index, string position, stack,
      capture records, the best length so far and the region it fills, and
      the best length and start it reports for FIND_LONGEST. */
  datatype Machine = Machine(p: nat, s: nat, stack: seq<StackEntry>, mem: Mem, bestLen: int,
                             region: Option<Region>, msaBestLen: int, msaBestS: nat)

  /** The records hold one slot per group plus the whole match, and every
      capture frame names one of them. */
  predicate MachineOk(prog: Program, m: Machine) {
    |m.mem.start| == prog.numMem + 1 && |m.mem.end| == prog.numMem + 1 && FramesIndexed(m.stack, m.mem)
  }

  /** Two machine states agree on what the match has found so far. */
  predicate SameResult(m: Machine, m': Machine) {
    m'.bestLen == m.bestLen && m'.region == m.region && m'.msaBestLen == m.msaBestLen && m'.msaBestS == m.msaBestS
  }

  /** What one instruction does: go on, take the failure path, return a
      result, or stop abnormally (`Trap`, where the source would panic on
      an index or an unsigned subtraction). `Unmodelled` marks instructions
      this model does not cover. */
  datatype Outcome = Next(m: Machine) | Failed(m: Machine) | Stop(result: int, m: Machine) | Trap | Unmodelled

  predicate OutcomeOk(prog: Program, o: Outcome) {
    (o.Next? || o.Failed? || o.Stop?) ==> MachineOk(prog, o.m)
  }

  /** `right_range.saturating_sub(s)`. */
  function Remaining(ctx: Ctx, s: nat): (n: nat)
    ensures n <= ctx.rightRange && (n > 0 ==> n == ctx.rightRange - s)
  {
    if ctx.rightRange >= s then ctx.rightRange - s else 0
  }

  /** `enclen`: the length of the character at `s`, 1 past the subject. */
  function EncLen(enc: Encoding.Enc, str: seq<Byte>, s: nat): (n: nat)
    ensures 1 <= n <= 4
  {
    if s >= |str| then 1 else Encoding.EncLenAt(enc, str, s)
  }

  function Push(m: Machine, e: StackEntry): (r: Machine)
  {
    m.(stack := m.stack + [e])
  }

  lemma PushKeepsFrames(stack: seq<StackEntry>, e: StackEntry, mem: Mem)
    requires FramesIndexed(stack, mem)
    requires (e.MemStartEntry? || e.MemEndEntry?) ==> 0 <= e.zid < |mem.start| && e.zid < |mem.end|
    ensures FramesIndexed(stack + [e], mem)
  {
    assert forall i :: 0 <= i < |stack| ==> (stack + [e])[i] == stack[i];
  }

  /** A literal of `n` bytes at `s`: at least `n` bytes left before the
      right limit, and those bytes are `lit[..n]`. */
  predicate LiteralAt(ctx: Ctx, s: nat, lit: seq<Byte>, n: nat)
    requires ValidCtx(ctx) && n <= |lit|
  {
    Remaining(ctx, s) >= n && s <= |ctx.str| && ctx.str[s..s + n] == lit[..n]
  }

  /** STR_1 .. STR_5: `k` bytes of the inline buffer. */
  function StepStr(ctx: Ctx, m: Machine, op: Operation, k: nat): (o: Outcome)
    requires ValidCtx(ctx) && 1 <= k <= 5
    ensures o.Next? || o.Failed?
    ensures o.Failed? ==> o.m == m
    ensures o.Next? <==> op.payload.Exact? && LiteralAt(ctx, m.s, op.payload.buf, k)
    ensures o.Next? ==> o.m == m.(s := m.s + k, p := m.p + 1)
  {
    if Remaining(ctx, m.s) < k then Failed(m)
    else if !op.payload.Exact? then Failed(m)
    else if op.payload.buf[..k] != ctx.str[m.s..m.s + k] then Failed(m)
    else Next(m.(s := m.s + k, p := m.p + 1))
  }

  /** STR_N and the multi-byte literal instructions: a literal whose byte
      count is in the payload. A negative count, read as `usize`, never
      fits; a slice starting past the subject or reaching beyond the
      payload's bytes is out of range. */
  function StepStrLen(ctx: Ctx, m: Machine, lit: seq<Byte>, n: int): (o: Outcome)
    requires ValidCtx(ctx)
    ensures o.Next? || o.Failed? || o.Trap?
    ensures o.Failed? ==> o.m == m
    ensures o.Trap? <==> 0 <= n && Remaining(ctx, m.s) >= n && (m.s > |ctx.str| || |lit| < n)
    ensures o.Next? <==> 0 <= n <= |lit| && LiteralAt(ctx, m.s, lit, n)
    ensures o.Next? ==> o.m == m.(s := m.s + n, p := m.p + 1)
  {
    if n < 0 || Remaining(ctx, m.s) < n then Failed(m)
    else if m.s > |ctx.str| || |lit| < n then Trap
    else if ctx.str[m.s..m.s + n] != lit[..n] then Failed(m)
    else Next(m.(s := m.s + n, p := m.p + 1))
  }

  /** The literal instructions: STR_1 .. STR_5 read the inline buffer,
      STR_N an `ExactN` payload and the multi-byte ones an `ExactLenN`
      payload; a payload of another kind fails. */
  function StepLiteral(ctx: Ctx, m: Machine, op: Operation): (o: Outcome)
    requires ValidCtx(ctx) && IsStrOpcode(op.opcode)
    ensures o.Next? || o.Failed? || o.Trap?
    ensures o.Failed? ==> o.m == m
    ensures o.Next? ==> o.m == m.(s := o.m.s, p := m.p + 1)
  {
    match op.opcode
    case Str1 => StepStr(ctx, m, op, 1)
    case Str2 => StepStr(ctx, m, op, 2)
    case Str3 => StepStr(ctx, m, op, 3)
    case Str4 => StepStr(ctx, m, op, 4)
    case Str5 => StepStr(ctx, m, op, 5)
    case StrN => if op.payload.ExactN? then StepStrLen(ctx, m, op.payload.s, op.payload.n) else Failed(m)
    case _ => if op.payload.ExactLenN? then StepStrLen(ctx, m, op.payload.s, op.payload.n) else Failed(m)
  }

  /** CCLASS and CCLASS_NOT: the byte at `s` tested against the bitset;
      the position moves past the whole character. */
  function StepCClass(prog: Program, ctx: Ctx, m: Machine, op: Operation, not: bool): (o: Outcome)
    requires ValidCtx(ctx)
    ensures o.Next? || o.Failed?
    ensures o.Failed? ==> o.m == m
    ensures o.Next? <==> op.payload.CClassPayload? && Remaining(ctx, m.s) >= 1
                         && BitsetAt(op.payload.bsp, ctx.str[m.s]) != not
    ensures o.Next? ==> o.m == m.(s := m.s + EncLen(prog.enc, ctx.str, m.s), p := m.p + 1)
  {
    if Remaining(ctx, m.s) < 1 then Failed(m)
    else if !op.payload.CClassPayload? then Failed(m)
    else if BitsetAt(op.payload.bsp, ctx.str[m.s]) == not then Failed(m)
    else Next(m.(s := m.s + EncLen(prog.enc, ctx.str, m.s), p := m.p + 1))
  }

  /** Where a capture boundary stands: unset, at a position, or behind a
      frame index past the top of the stack (which the source would index
      out of range). */
  datatype Lookup = NotSet | At(pos: nat) | OutOfStack

  /** `get_mem_start` (isStart) and `get_mem_end`. */
  function MemPos(stack: seq<StackEntry>, ptr: MemPtr, isStart: bool): (r: Lookup)
  {
    match ptr
    case Invalid => NotSet
    case Pos(q) => At(q)
    case StackIdx(si) =>
      if si >= |stack| then OutOfStack
      else if isStart && stack[si].MemStartEntry? then At(stack[si].pstr)
      else if !isStart && stack[si].MemEndEntry? then At(stack[si].pstr)
      else NotSet
  }

  /** BACKREF1 and BACKREF2: the text group `k` captured, again at `s`. A
      group lacking its start or its end fails. */
  function StepBackRef(prog: Program, ctx: Ctx, m: Machine, k: nat): (o: Outcome)
    requires ValidCtx(ctx) && MachineOk(prog, m) && 1 <= k
    ensures o.Next? || o.Failed? || o.Trap?
    ensures o.Failed? ==> o.m == m
    ensures o.Next? ==> o.m.stack == m.stack && o.m.mem == m.mem && o.m.p == m.p + 1 && m.s <= o.m.s
    ensures o.Next? ==> SameResult(m, o.m)
    ensures k > prog.numMem ==> o.Failed?
    ensures k <= prog.numMem
            && (MemPos(m.stack, m.mem.start[k], true).NotSet? || MemPos(m.stack, m.mem.end[k], false).NotSet?)
            && !MemPos(m.stack, m.mem.start[k], true).OutOfStack?
            && !MemPos(m.stack, m.mem.end[k], false).OutOfStack?
            ==> o.Failed?
  {
    if prog.numMem < k then Failed(m)
    else
      var ms := MemPos(m.stack, m.mem.start[k], true);
      var me := MemPos(m.stack, m.mem.end[k], false);
      if ms.OutOfStack? || me.OutOfStack? then Trap
      else if !ms.At? || !me.At? then Failed(m)
      else if me.pos < ms.pos then Trap
      else
        var len := me.pos - ms.pos;
        if Remaining(ctx, m.s) < len then Failed(m)
        else if m.s > |ctx.str| || me.pos > |ctx.str| then Trap
        else if ctx.str[m.s..m.s + len] != ctx.str[ms.pos..me.pos] then Failed(m)
        else Next(m.(s := m.s + len, p := m.p + 1))
  }

  /** The capture instructions: MEM_START and MEM_END record the position
      directly, the PUSH forms push a frame holding the group's previous
      records and point at it. A group number outside the records is an
      out-of-range index. */
  function StepMem(prog: Program, m: Machine, op: Operation): (o: Outcome)
    requires MachineOk(prog, m)
    requires op.opcode in {MemStart, MemStartPush, MemEnd, MemEndPush}
    ensures OutcomeOk(prog, o)
    ensures (o.Next? || o.Failed?) ==> SameResult(m, o.m)
    ensures o.Next? ==> o.m.s == m.s && o.m.p == m.p + 1
  {
    if op.opcode in {MemStart, MemStartPush} && !op.payload.MemoryStart? then Failed(m)
    else if op.opcode in {MemEnd, MemEndPush} && !op.payload.MemoryEnd? then Failed(m)
    else
      var num := op.payload.num;
      if num < 0 || num > prog.numMem then Trap
      else
        var st, en := m.mem.start, m.mem.end;
        var top := |m.stack|;
        match op.opcode
        case MemStart => Next(m.(mem := Mem(st[num := Pos(m.s)], en[num := Invalid]), p := m.p + 1))
        case MemEnd => Next(m.(mem := Mem(st, en[num := Pos(m.s)]), p := m.p + 1))
        case MemStartPush =>
          var e := MemStartEntry(num, m.s, st[num], en[num]);
          PushKeepsFrames(m.stack, e, m.mem);
          var m1 := Push(m, e).(mem := Mem(st[num := StackIdx(top)], en[num := Invalid]), p := m.p + 1);
          Next(m1)
        case MemEndPush =>
          var e := MemEndEntry(num, m.s, st[num], en[num]);
          PushKeepsFrames(m.stack, e, m.mem);
          Next(Push(m, e).(mem := Mem(st, en[num := StackIdx(top)]), p := m.p + 1))
  }

  /** Whether an instruction carries the operand kind its opcode reads; the
      matcher takes the failure path when it does not. */
  predicate PayloadFits(op: Operation)
  {
    match op.opcode
    case Jump => op.payload.JumpPayload?
    case Push | PushSuper => op.payload.PushPayload?
    case PopToMark => op.payload.PopToMarkPayload?
    case Repeat | RepeatNg => op.payload.RepeatPayload?
    case RepeatInc | RepeatIncNg => op.payload.RepeatIncPayload?
    case EmptyCheckStart => op.payload.EmptyCheckStartPayload?
    case EmptyCheckEnd => op.payload.EmptyCheckEndPayload?
    case Mark => op.payload.MarkPayload?
    case CutToMark => op.payload.CutToMarkPayload?
    case _ => true
  }

  /** POP_TO_MARK as the matcher runs it: entries are removed down to and
      including the topmost mark with the id, with no capture record put
      back. */
  function PopToMarkPlain(stack: seq<StackEntry>, markId: int): (r: seq<StackEntry>)
    ensures match TopWhere(stack, e => IsMark(e, markId))
      case None => r == []
      case Some(k) => r == stack[..k]
    decreases |stack|
  {
    if |stack| == 0 then []
    else if IsMark(stack[|stack| - 1], markId) then stack[..|stack| - 1]
    else
      var rest := stack[..|stack| - 1];
      assert TopWhere(stack, e => IsMark(e, markId)) == TopWhere(rest, e => IsMark(e, markId));
      PopToMarkPlain(rest, markId)
  }

  lemma PrefixKeepsFrames(stack: seq<StackEntry>, k: nat, mem: Mem)
    requires FramesIndexed(stack, mem) && k <= |stack|
    ensures FramesIndexed(stack[..k], mem)
  {
    assert forall i :: 0 <= i < k ==> stack[..k][i] == stack[i];
  }

  /** JUMP, PUSH, PUSH_SUPER, POP and POP_TO_MARK. A target is the
      instruction index plus the offset, read as `usize`. */
  function StepBranch(prog: Program, m: Machine, op: Operation): (o: Outcome)
    requires MachineOk(prog, m)
    requires op.opcode in {OpCode.Jump, OpCode.Push, OpCode.PushSuper, OpCode.Pop, OpCode.PopToMark}
    ensures OutcomeOk(prog, o) && (o.Next? || o.Failed?)
    ensures (o.Next? || o.Failed?) ==> SameResult(m, o.m)
    ensures o.Next? ==> o.m.s == m.s && o.m.mem == m.mem
    ensures o.Failed? <==> !PayloadFits(op)
    ensures o.Next? && op.opcode == Jump ==>
      op.payload.JumpPayload? && o.m.stack == m.stack && o.m.p == Usize(m.p + op.payload.addr)
    ensures o.Next? && op.opcode in {OpCode.Push, OpCode.PushSuper} ==>
      && op.payload.PushPayload?
      && o.m.p == m.p + 1
      && o.m.stack == m.stack + [AltEntry(Usize(m.p + op.payload.addr), m.s, -1, op.opcode == PushSuper)]
  {
    if op.opcode == Jump then
      if !op.payload.JumpPayload? then Failed(m) else Next(m.(p := Usize(m.p + op.payload.addr)))
    else if op.opcode == Pop then
      var st := if |m.stack| == 0 then [] else m.stack[..|m.stack| - 1];
      PrefixKeepsFrames(m.stack, |st|, m.mem);
      Next(m.(stack := st, p := m.p + 1))
    else if op.opcode == PopToMark then
      if !op.payload.PopToMarkPayload? then Failed(m)
      else
        var st := PopToMarkPlain(m.stack, op.payload.id);
        PrefixKeepsFrames(m.stack, |st|, m.mem);
        Next(m.(stack := st, p := m.p + 1))
    else
      if !op.payload.PushPayload? then Failed(m)
      else
        var e := AltEntry(Usize(m.p + op.payload.addr), m.s, -1, op.opcode == PushSuper);
        PushKeepsFrames(m.stack, e, m.mem);
        Next(Push(m, e).(p := m.p + 1))
  }

  /** REPEAT and REPEAT_NG: a zero counter is pushed; when the body may be
      skipped, the greedy form tries the body and keeps the skip as the
      alternative, the lazy form skips and keeps the body. */
  function StepRepeat(prog: Program, m: Machine, op: Operation): (o: Outcome)
    requires MachineOk(prog, m)
    requires op.opcode in {Repeat, RepeatNg}
    ensures OutcomeOk(prog, o) && (o.Next? || o.Failed? || o.Trap?)
    ensures (o.Next? || o.Failed?) ==> SameResult(m, o.m)
    ensures o.Failed? <==> !PayloadFits(op)
    ensures o.Trap? <==> PayloadFits(op) && !(0 <= op.payload.id < |prog.repeatRange|)
    ensures o.Next? ==>
      && op.payload.RepeatPayload?
      && o.m.s == m.s && o.m.mem == m.mem && |o.m.stack| > |m.stack|
      && o.m.stack[|m.stack|] == RepeatIncEntry(op.payload.id, 0)
  {
    if !op.payload.RepeatPayload? then Failed(m)
    else
      var id := op.payload.id;
      var counter := RepeatIncEntry(id, 0);
      PushKeepsFrames(m.stack, counter, m.mem);
      var m1 := Push(m, counter);
      if id < 0 || id >= |prog.repeatRange| then Trap
      else if prog.repeatRange[id].lower == 0 then
        var target := Usize(m.p + op.payload.addr);
        if op.opcode == Repeat then
          var e := AltEntry(target, m.s, -1, false);
          PushKeepsFrames(m1.stack, e, m.mem);
          Next(Push(m1, e).(p := m.p + 1))
        else
          var e := AltEntry(m.p + 1, m.s, -1, false);
          PushKeepsFrames(m1.stack, e, m.mem);
          Next(Push(m1, e).(p := target))
      else Next(m1.(p := m.p + 1))
  }

  /** REPEAT_INC (greedy): the count becomes one more than the topmost
      counter of the repeat. At the upper bound the loop is left; from the
      lower bound on, leaving is kept as the alternative and the body runs
      again; below it the body runs again. The new count is pushed last. */
  function StepRepeatInc(prog: Program, m: Machine, op: Operation): (o: Outcome)
    requires MachineOk(prog, m)
    requires op.opcode in {RepeatInc, RepeatIncNg}
    ensures OutcomeOk(prog, o) && (o.Next? || o.Failed? || o.Trap?)
    ensures (o.Next? || o.Failed?) ==> SameResult(m, o.m)
    ensures o.Failed? <==> !PayloadFits(op)
    ensures o.Trap? <==> PayloadFits(op) && !(0 <= op.payload.id < |prog.repeatRange|)
    ensures o.Next? ==> o.m.s == m.s && o.m.mem == m.mem
  {
    if !op.payload.RepeatIncPayload? then Failed(m)
    else
      var id := op.payload.id;
      var count := GetRepeatCount(m.stack, id) + 1;
      if id < 0 || id >= |prog.repeatRange| then Trap
      else
        var rr := prog.repeatRange[id];
        var bodyStart := Usize(rr.uOffset);
        var counter := RepeatIncEntry(id, count);
        if op.opcode == RepeatInc then
          if rr.upper != INFINITE_REPEAT && count >= rr.upper then
            PushKeepsFrames(m.stack, counter, m.mem);
            Next(Push(m, counter).(p := m.p + 1))
          else if count >= rr.lower then
            var e := AltEntry(m.p + 1, m.s, -1, false);
            PushKeepsFrames(m.stack, e, m.mem);
            PushKeepsFrames(m.stack + [e], counter, m.mem);
            Next(Push(Push(m, e), counter).(p := bodyStart))
          else
            PushKeepsFrames(m.stack, counter, m.mem);
            Next(Push(m, counter).(p := bodyStart))
        else
          PushKeepsFrames(m.stack, counter, m.mem);
          var m1 := Push(m, counter);
          if rr.upper != INFINITE_REPEAT && count == rr.upper then Next(m1.(p := m.p + 1))
          else if count >= rr.lower then
            var e := AltEntry(bodyStart, m.s, -1, false);
            PushKeepsFrames(m1.stack, e, m.mem);
            Next(Push(m1, e).(p := m.p + 1))
          else Next(m1.(p := bodyStart))
  }

  /** EMPTY_CHECK_START, EMPTY_CHECK_END, MARK and CUT_TO_MARK. */
  function StepCheck(prog: Program, m: Machine, op: Operation): (o: Outcome)
    requires MachineOk(prog, m)
    requires op.opcode in {EmptyCheckStart, EmptyCheckEnd, OpCode.Mark, CutToMark}
    ensures OutcomeOk(prog, o) && (o.Next? || o.Failed?)
    ensures (o.Next? || o.Failed?) ==> SameResult(m, o.m)
    ensures o.Next? ==> o.m.mem == m.mem
    ensures o.Failed? <==> !PayloadFits(op)
    ensures o.Next? && op.opcode == EmptyCheckEnd ==>
      && op.payload.EmptyCheckEndPayload?
      && o.m.stack == m.stack && o.m.s == m.s
      && o.m.p == m.p + (if EmptyCheck(m.stack, op.payload.mem, m.s) then 2 else 1)
  {
    if op.opcode == EmptyCheckStart then
      if !op.payload.EmptyCheckStartPayload? then Failed(m)
      else
        var e := EmptyCheckStartEntry(op.payload.mem, m.s);
        PushKeepsFrames(m.stack, e, m.mem);
        Next(Push(m, e).(p := m.p + 1))
    else if op.opcode == EmptyCheckEnd then
      if !op.payload.EmptyCheckEndPayload? then Failed(m)
      else Next(m.(p := m.p + 1 + (if EmptyCheck(m.stack, op.payload.mem, m.s) then 1 else 0)))
    else if op.opcode == OpCode.Mark then
      if !op.payload.MarkPayload? then Failed(m)
      else
        var e := MarkEntry(op.payload.id, if op.payload.savePos then Some(m.s) else None);
        PushKeepsFrames(m.stack, e, m.mem);
        Next(Push(m, e).(p := m.p + 1))
    else
      if !op.payload.CutToMarkPayload? then Failed(m)
      else
        StepCutToMark(prog, m, op.payload.id, op.payload.restorePos)
  }

  /** CUT_TO_MARK: void the entries above the mark and, when asked, go
      back to the position the mark saved. */
  function StepCutToMark(prog: Program, m: Machine, id: int, restorePos: bool): (o: Outcome)
    requires MachineOk(prog, m)
    ensures OutcomeOk(prog, o) && o.Next? && SameResult(m, o.m) && o.m.mem == m.mem
    ensures o.m.p == m.p + 1 && o.m.stack == StackVoidToMark(m.stack, id).0
    ensures o.m.s == if restorePos && StackVoidToMark(m.stack, id).1.Some?
                     then StackVoidToMark(m.stack, id).1.value else m.s
  {
    var (st, pos) := StackVoidToMark(m.stack, id);
    assert FramesIndexed(st, m.mem) by {
      forall i | 0 <= i < |st| && (st[i].MemStartEntry? || st[i].MemEndEntry?)
        ensures 0 <= st[i].zid < |m.mem.start| && st[i].zid < |m.mem.end|
      {
        assert st[i] == m.stack[i] || st[i] == VoidEntry || st[i] == Voided(m.stack[i]);
      }
    }
    var s' := if restorePos && pos.Some? then pos.value else m.s;
    Next(m.(stack := st, s := s', p := m.p + 1))
  }

  /** Slot `i` of the region at a match: `None` where a record points past
      the top of the stack; otherwise the group's start and end, both
      REGION_NOTPOS when the end is unset and the start REGION_NOTPOS when
      only it is unset. */
  function CaptureSlot(stack: seq<StackEntry>, mem: Mem, i: nat): (r: Option<(int, int)>)
    requires i < |mem.start| && i < |mem.end|
  {
    match MemPos(stack, mem.end[i], false)
    case OutOfStack => None
    case NotSet => Some((REGION_NOTPOS, REGION_NOTPOS))
    case At(e) =>
      match MemPos(stack, mem.start[i], true)
      case OutOfStack => None
      case NotSet => Some((REGION_NOTPOS, e))
      case At(b) => Some((b, e))
  }

  /** Slots 1 .. k, in order. */
  function CaptureSlots(stack: seq<StackEntry>, mem: Mem, k: nat): (r: Option<(seq<int>, seq<int>)>)
    requires k < |mem.start| && k < |mem.end|
    ensures r.None? <==> exists i :: 1 <= i <= k && CaptureSlot(stack, mem, i).None?
    ensures r.Some? ==>
      && |r.value.0| == k && |r.value.1| == k
      && forall i :: 1 <= i <= k ==> CaptureSlot(stack, mem, i) == Some((r.value.0[i - 1], r.value.1[i - 1]))
  {
    if k == 0 then Some(([], []))
    else
      match CaptureSlots(stack, mem, k - 1)
      case None => None
      case Some(prev) =>
        match CaptureSlot(stack, mem, k)
        case None => None
        case Some(slot) => Some((prev.0 + [slot.0], prev.1 + [slot.1]))
  }

  /** The region written at END: one slot per group plus the whole match,
      which spans `keep` .. `s`. */
  function FillRegion(prog: Program, m: Machine, region: Region, keep: nat): (r: Option<Region>)
    requires MachineOk(prog, m)
    ensures r.None? <==> exists i :: 1 <= i <= prog.numMem && CaptureSlot(m.stack, m.mem, i).None?
    ensures r.Some? ==>
      && ValidRegion(r.value) && r.value.numRegs == prog.numMem + 1
      && r.value.beg[0] == keep && r.value.end[0] == m.s
      && (forall i :: 1 <= i <= prog.numMem ==>
            CaptureSlot(m.stack, m.mem, i) == Some((r.value.beg[i], r.value.end[i])))
  {
    match CaptureSlots(m.stack, m.mem, prog.numMem)
    case None => None
    case Some(slots) =>
      Some(ResizeRegion(region, prog.numMem + 1).(beg := [keep as int] + slots.0, end := [m.s as int] + slots.1))
  }

  /** `m'` records the match ending at `m.s` as the new best: longer
      than the best so far, ending at the subject's end when the whole
      subject is required, nonempty when empty matches are refused, with
      the region filled from the capture records. */
  predicate Accepted(prog: Program, ctx: Ctx, m: Machine, m': Machine)
    requires MachineOk(prog, m)
  {
    && m.s >= ctx.sstart
    && m'.bestLen == m.s - ctx.sstart > m.bestLen
    && (IsOptionOn(ctx.options, OPTION_MATCH_WHOLE_STRING) ==> m.s >= ctx.end)
    && (IsOptionOn(ctx.options, OPTION_FIND_NOT_EMPTY) ==> m'.bestLen > 0)
    && m'.stack == m.stack && m'.mem == m.mem && m'.p == m.p && m'.s == m.s
    && (m.region.Some? <==> m'.region.Some?)
    && (m.region.Some? ==> Some(m'.region.value) == FillRegion(prog, m, m.region.value, ctx.sstart))
  }

  /** END: a match of length `s - sstart`. It is refused when the whole
      subject is required and unread bytes remain, or when it is empty and
      empty matches are refused; a match no longer than the best so far is
      refused too. An accepted match fills the region and returns, or, when
      the longest match is sought, is recorded and the search backtracks
      for a longer one. */
  function StepEnd(prog: Program, ctx: Ctx, m: Machine): (o: Outcome)
    requires MachineOk(prog, m)
    ensures OutcomeOk(prog, o) && (o.Stop? || o.Failed? || o.Trap?)
    ensures o.Stop? ==>
      && !IsOptionOn(ctx.options, OPTION_FIND_LONGEST)
      && o.result == o.m.bestLen && Accepted(prog, ctx, m, o.m) && o.m.msaBestLen == m.msaBestLen
    ensures o.Failed? ==>
      || o.m == m
      || (&& IsOptionOn(ctx.options, OPTION_FIND_LONGEST) && Accepted(prog, ctx, m, o.m)
          && o.m.msaBestLen == o.m.bestLen && o.m.msaBestS == ctx.sstart)
    ensures o.Trap? <==>
      && !(IsOptionOn(ctx.options, OPTION_MATCH_WHOLE_STRING) && m.s < ctx.end)
      && (m.s < ctx.sstart
          || (!(m.s == ctx.sstart && IsOptionOn(ctx.options, OPTION_FIND_NOT_EMPTY))
              && m.s - ctx.sstart > m.bestLen && m.region.Some?
              && FillRegion(prog, m, m.region.value, ctx.sstart).None?))
  {
    if IsOptionOn(ctx.options, OPTION_MATCH_WHOLE_STRING) && m.s < ctx.end then Failed(m)
    else if m.s < ctx.sstart then Trap
    else
      var n := m.s - ctx.sstart;
      if n == 0 && IsOptionOn(ctx.options, OPTION_FIND_NOT_EMPTY) then Failed(m)
      else if n <= m.bestLen then Failed(m)
      else
        var filled := if m.region.None? then None else FillRegion(prog, m, m.region.value, ctx.sstart);
        if m.region.Some? && filled.None? then Trap
        else
          var m1 := m.(bestLen := n, region := filled);
          if !IsOptionOn(ctx.options, OPTION_FIND_LONGEST) then Stop(n, m1)
          else Failed(m1.(msaBestLen := n, msaBestS := ctx.sstart))
  }

  lemma FramesIndexedPrefix(stack: seq<StackEntry>, mem: Mem, stack': seq<StackEntry>, mem': Mem)
    requires FramesIndexed(stack, mem)
    requires |stack'| <= |stack| && stack' == stack[..|stack'|]
    requires |mem'.start| == |mem.start| && |mem'.end| == |mem.end|
    ensures FramesIndexed(stack', mem')
  {
    assert forall i :: 0 <= i < |stack'| ==> stack'[i] == stack[i];
  }

  /** The failure path: pop to the latest alternative, putting back the
      capture records the level asks for, and resume there. The bottom
      alternative, or an exhausted stack, ends the match with the best
      length so far. */
  function Backtrack(prog: Program, m: Machine): (o: Outcome)
    requires MachineOk(prog, m)
    ensures OutcomeOk(prog, o) && (o.Next? || o.Stop?)
    ensures SameResult(m, o.m)
    ensures o.Stop? ==> o.result == m.bestLen
    ensures
      var popped := StackPop(m.stack, prog.popLevel, m.mem);
      && o.m.stack == popped.stack && o.m.mem == popped.mem
      && (o.Next? <==> popped.alt.Some? && popped.alt.value.pcode != FINISH_PCODE)
      && (o.Next? ==> o.m.p == popped.alt.value.pcode && o.m.s == popped.alt.value.pstr)
  {
    var popped := StackPop(m.stack, prog.popLevel, m.mem);
    FramesIndexedPrefix(m.stack, m.mem, popped.stack, popped.mem);
    var m1 := m.(stack := popped.stack, mem := popped.mem);
    if popped.alt.None? || popped.alt.value.pcode == FINISH_PCODE then Stop(m.bestLen, m1)
    else Next(m1.(p := popped.alt.value.pcode, s := popped.alt.value.pstr))
  }

  /** One instruction of `match_at`, chosen by its opcode. Instructions
      outside the modelled set give `Unmodelled`. */
  function Step(prog: Program, ctx: Ctx, m: Machine): (o: Outcome)
    requires ValidCtx(ctx) && MachineOk(prog, m) && m.p < |prog.ops|
    ensures OutcomeOk(prog, o)
    ensures (o.Next? || o.Failed?) && prog.ops[m.p].opcode != End ==> SameResult(m, o.m)
    ensures o.Stop? && prog.ops[m.p].opcode != End ==> o.result == m.bestLen && SameResult(m, o.m)
    ensures (o.Next? || o.Failed? || o.Stop?) ==> (o.m.region.Some? <==> m.region.Some?)
  {
    var op := prog.ops[m.p];
    match op.opcode
    case Finish => Stop(m.bestLen, m)
    case End => StepEnd(prog, ctx, m)
    case Str1 | Str2 | Str3 | Str4 | Str5 | StrN | StrMb2n1 | StrMb2n2 | StrMb2n3 | StrMb2n | StrMb3n | StrMbn =>
      StepLiteral(ctx, m, op)
    case CClass => StepCClass(prog, ctx, m, op, false)
    case CClassNot => StepCClass(prog, ctx, m, op, true)
    case BackRef1 => StepBackRef(prog, ctx, m, 1)
    case BackRef2 => StepBackRef(prog, ctx, m, 2)
    case MemStart | MemStartPush | MemEnd | MemEndPush => StepMem(prog, m, op)
    case Fail => Failed(m)
    case Jump | Push | PushSuper | Pop | PopToMark => StepBranch(prog, m, op)
    case Repeat | RepeatNg => StepRepeat(prog, m, op)
    case RepeatInc | RepeatIncNg => StepRepeatInc(prog, m, op)
    case EmptyCheckStart | EmptyCheckEnd | Mark | CutToMark => StepCheck(prog, m, op)
    case CalloutContents | CalloutName => Next(m.(p := m.p + 1))
    case _ => Unmodelled
  }

  /** Why a run ended without a value: an index or subtraction the source
      would panic on, the step bound, or an instruction outside the model. */
  datatype Abort = Trapped | OutOfFuel | Unsupported

  datatype RunResult = Finished(value: int, m: Machine) | Aborted(why: Abort)

  /** One turn of the dispatch loop: an instruction, followed by the
      failure path when it fails. */
  function Advance(prog: Program, ctx: Ctx, m: Machine): (o: Outcome)
    requires ValidCtx(ctx) && MachineOk(prog, m) && m.p < |prog.ops|
    ensures OutcomeOk(prog, o) && !o.Failed?
    ensures o.Stop? ==> o.result == o.m.bestLen
    ensures (o.Next? || o.Stop?) ==> (o.m.region.Some? <==> m.region.Some?)
    ensures ResultInv(prog, ctx, m) && (o.Next? || o.Stop?) ==> ResultInv(prog, ctx, o.m)
  {
    var o := Step(prog, ctx, m);
    StepKeepsResultInv(prog, ctx, m);
    if o.Failed? then Backtrack(prog, o.m) else o
  }

  /** The dispatch loop of `match_at`, for at most `fuel` instructions: a
      position past the program or the bottom alternative ends it with the
      best length so far. */
  function Run(prog: Program, ctx: Ctx, m: Machine, fuel: nat): (r: RunResult)
    requires ValidCtx(ctx) && MachineOk(prog, m)
    ensures r.Finished? ==> MachineOk(prog, r.m) && r.value == r.m.bestLen
    ensures r.Finished? ==> (r.m.region.Some? <==> m.region.Some?)
    ensures ResultInv(prog, ctx, m) && r.Finished? ==> ResultInv(prog, ctx, r.m)
    decreases fuel
  {
    if m.p >= |prog.ops| then Finished(m.bestLen, m)
    else if fuel == 0 then Aborted(OutOfFuel)
    else
      match Advance(prog, ctx, m)
      case Next(m1) => Run(prog, ctx, m1, fuel - 1)
      case Stop(v, m1) => Finished(v, m1)
      case Trap => Aborted(Trapped)
      case Unmodelled => Aborted(Unsupported)
  }

  /** What the best length and the region can hold during a run: nothing
      found yet, or a match from `sstart` that satisfies the options, with
      the region's whole-match slot spanning it. The saved best of the
      longest-match search is unset or equal to the best length. */
  predicate ResultInv(prog: Program, ctx: Ctx, m: Machine) {
    && (m.bestLen == MISMATCH || m.bestLen >= 0)
    && (m.bestLen >= 0 ==>
          && (IsOptionOn(ctx.options, OPTION_FIND_NOT_EMPTY) ==> m.bestLen > 0)
          && (IsOptionOn(ctx.options, OPTION_MATCH_WHOLE_STRING) ==> ctx.sstart + m.bestLen >= ctx.end)
          && (m.region.Some? ==>
                && ValidRegion(m.region.value) && m.region.value.numRegs == prog.numMem + 1
                && m.region.value.beg[0] == ctx.sstart && m.region.value.end[0] == ctx.sstart + m.bestLen))
    && (m.msaBestLen == MISMATCH
        || (IsOptionOn(ctx.options, OPTION_FIND_LONGEST) && m.msaBestLen == m.bestLen))
  }

  lemma StepKeepsResultInv(prog: Program, ctx: Ctx, m: Machine)
    requires ValidCtx(ctx) && MachineOk(prog, m) && m.p < |prog.ops|
    ensures var o := Step(prog, ctx, m);
      ResultInv(prog, ctx, m) && (o.Next? || o.Failed? || o.Stop?) ==> ResultInv(prog, ctx, o.m)
  {
    var o := Step(prog, ctx, m);
    if ResultInv(prog, ctx, m) && prog.ops[m.p].opcode == End && (o.Stop? || o.Failed?) && o.m != m {
      assert Accepted(prog, ctx, m, o.m);
      if m.region.Some? {
        assert Some(o.m.region.value) == FillRegion(prog, m, m.region.value, ctx.sstart);
      }
    }
  }

  /** The state `match_at` starts from: the first instruction, position
      `sstart`, the bottom alternative on the stack and every capture
      record unset. */
  function InitialMachine(prog: Program, sstart: nat, region: Option<Region>): (m: Machine)
    ensures MachineOk(prog, m)
  {
    Machine(0, sstart, [AltEntry(FINISH_PCODE, 0, -1, false)],
            Mem(seq(prog.numMem + 1, _ => Invalid), seq(prog.numMem + 1, _ => Invalid)),
            MISMATCH, region, MISMATCH, 0)
  }

  /** A reported length: MISMATCH, or the length of a match from `sstart`
      that satisfies the options, which a present region spans in its
      whole-match slot. */
  predicate IsMatchLength(prog: Program, ctx: Ctx, v: int, region: Option<Region>) {
    || v == MISMATCH
    || (&& v >= 0
        && (IsOptionOn(ctx.options, OPTION_FIND_NOT_EMPTY) ==> v > 0)
        && (IsOptionOn(ctx.options, OPTION_MATCH_WHOLE_STRING) ==> ctx.sstart + v >= ctx.end)
        && (region.Some? ==>
              && ValidRegion(region.value) && region.value.numRegs == prog.numMem + 1
              && region.value.beg[0] == ctx.sstart && region.value.end[0] == ctx.sstart + v))
  }

  /** `match_at`: run the program from `sstart`. */
  function MatchAt(prog: Program, ctx: Ctx, region: Option<Region>, fuel: nat): (r: RunResult)
    requires ValidCtx(ctx)
    ensures r.Finished? ==>
      && IsMatchLength(prog, ctx, r.value, r.m.region)
      && (r.m.region.Some? <==> region.Some?)
      && (r.m.msaBestLen == MISMATCH || r.m.msaBestLen == r.value)
  {
    var m := InitialMachine(prog, ctx.sstart, region);
    Run(prog, ctx, m, fuel)
  }

  /** What the entry points return: a value and the region, or an abnormal
      end of the run. */
  datatype Reply = Answer(value: int, region: Option<Region>) | Halted(why: Abort)

  /** The region as every match attempt receives it: resized to one slot
      per group plus the whole match, then cleared. */
  function Prepared(prog: Program, region: Option<Region>): (r: Option<Region>)
    ensures r == if region.Some? then Some(BlankRegion(prog.numMem + 1)) else None
  {
    if region.None? then None
    else
      ResizeThenClearIsBlank(region.value, prog.numMem + 1);
      Some(ClearRegion(ResizeRegion(region.value, prog.numMem + 1)))
  }

  /** `onig_match`: one attempt at `at`, with the caller's options added to
      the pattern's. The subject must extend to `end`. */
  function OnigMatch(prog: Program, str: seq<Byte>, end: nat, at: nat, region: Option<Region>,
                     option: Options, fuel: nat): (r: Reply)
    requires end <= |str|
    ensures var ctx := Ctx(str, end, end, at, option | prog.options);
      && (r.Answer? ==> IsMatchLength(prog, ctx, r.value, r.region) && (r.region.Some? <==> region.Some?))
      && (r.Answer? <==> MatchAt(prog, ctx, Prepared(prog, region), fuel).Finished?)
      // the FIND_LONGEST fallback never changes the value: a run that found
      // no match has no saved best either
      && (r.Answer? ==> r.value == MatchAt(prog, ctx, Prepared(prog, region), fuel).value)
  {
    var options := option | prog.options;
    var ctx := Ctx(str, end, end, at, options);
    match MatchAt(prog, ctx, Prepared(prog, region), fuel)
    case Aborted(why) => Halted(why)
    case Finished(v, mf) =>
      var result :=
        if IsOptionOn(options, OPTION_FIND_LONGEST) && v == MISMATCH then
          (if mf.msaBestLen >= 0 then mf.msaBestLen else v)
        else v;
      Answer(result, mf.region)
  }

  /** The start positions a forward search tries from `s`: each one up to
      `range`, moving a character at a time, and none after the first at
      or past `end`. */
  function Tried(enc: Encoding.Enc, str: seq<Byte>, end: nat, range: nat, s: nat): (t: seq<nat>)
    ensures |t| > 0 ==> t[0] == s
    ensures forall k :: 0 <= k < |t| ==> s <= t[k] <= range
    decreases if s < end then end - s else 0
  {
    if s > range then []
    else if s >= end then [s]
    else [s] + Tried(enc, str, end, range, s + EncLen(enc, str, s))
  }

  /** The attempt at `s`, with a blank region when the caller passed one. */
  function Attempt(prog: Program, str: seq<Byte>, end: nat, options: Options, withRegion: bool,
                   s: nat, fuel: nat): (r: RunResult)
    requires end <= |str|
    ensures r.Finished? ==> AttemptOk(r) && (r.m.region.Some? <==> withRegion)
    ensures r.Finished? ==> IsMatchLength(prog, Ctx(str, end, end, s, options), r.value, r.m.region)
  {
    MatchAt(prog, Ctx(str, end, end, s, options),
            if withRegion then Some(BlankRegion(prog.numMem + 1)) else None, fuel)
  }

  /** What every finished attempt satisfies: MISMATCH or a length, and a
      saved best that is unset or that length. */
  predicate AttemptOk(r: RunResult)
    requires r.Finished?
  {
    && (r.value == MISMATCH || r.value >= 0)
    && (r.m.msaBestLen == MISMATCH || r.m.msaBestLen == r.value)
  }

  /** The length a longest-match search credits to an attempt: the saved
      best when there is one, else the value. */
  function MatchLen(r: RunResult): (n: int)
    requires r.Finished?
    ensures AttemptOk(r) ==> n == r.value
  {
    if r.value == MISMATCH then MISMATCH
    else if r.m.msaBestLen >= 0 then r.m.msaBestLen
    else r.value
  }

  /** How the scan over start positions ends: a match at `pos` (first-match
      search), the best start and length (longest-match search, MISMATCH
      when none), or an abnormal end of an attempt. */
  datatype Scan = Hit(pos: nat, region: Option<Region>)
                | Exhausted(bestStart: int, bestLen: int, region: Option<Region>)
                | Stopped(why: Abort)

  /** The loop of `onig_search` from position `s`, with the longest match
      found so far. `attempt` gives the attempt at a position: every turn
      resizes and clears the region before it, which yields the same blank
      region whatever the previous turn left in it
      (Oniguruma.ResizeThenClearIsBlank), so an attempt depends on the
      position alone. */
  function SearchFrom(enc: Encoding.Enc, str: seq<Byte>, end: nat, range: nat, options: Options,
                      attempt: nat -> RunResult, s: nat, bestStart: int, bestLen: int,
                      region: Option<Region>): (r: Scan)
    requires bestStart >= MISMATCH
    ensures r.Hit? ==> !IsOptionOn(options, OPTION_FIND_LONGEST) && s <= r.pos
    ensures r.Hit? ==> attempt(r.pos).Finished? && r.region == attempt(r.pos).m.region
    ensures r.Hit? ==> attempt(r.pos).value != MISMATCH
    ensures r.Exhausted? ==> r.bestStart >= MISMATCH
    ensures MatchedAt(attempt, bestStart) && r.Exhausted? ==> MatchedAt(attempt, r.bestStart)
    decreases if s < end then end - s else 0
  {
    if s > range then Exhausted(bestStart, bestLen, region)
    else
      var res := attempt(s);
      match res
      case Aborted(why) => Stopped(why)
      case Finished(v, mf) =>
        if v != MISMATCH && !IsOptionOn(options, OPTION_FIND_LONGEST) then Hit(s, mf.region)
        else
          var len := MatchLen(res);
          var better := v != MISMATCH && (bestLen == MISMATCH || len > bestLen || (len == bestLen && bestStart == MISMATCH));
          var bs := if better then s else bestStart;
          var bl := if better then len else bestLen;
          if s >= end then Exhausted(bs, bl, mf.region)
          else SearchFrom(enc, str, end, range, options, attempt, s + EncLen(enc, str, s), bs, bl, mf.region)
  }

  /** No best start yet, or one whose attempt finished with a match. */
  predicate MatchedAt(attempt: nat -> RunResult, bestStart: int) {
    bestStart != MISMATCH ==> bestStart >= 0 && attempt(bestStart).Finished? && attempt(bestStart).value != MISMATCH
  }

  /** The attempts at the first `k` positions finish without a match. */
  predicate NoMatchIn(t: seq<nat>, attempt: nat -> RunResult, k: nat)
    requires k <= |t|
  {
    forall j :: 0 <= j < k ==> attempt(t[j]).Finished? && attempt(t[j]).value == MISMATCH
  }

  /** The attempts at the first `k` positions finish. */
  predicate AllFinish(t: seq<nat>, attempt: nat -> RunResult, k: nat)
    requires k <= |t|
  {
    forall j :: 0 <= j < k ==> attempt(t[j]).Finished?
  }

  /** What a first-match scan over the positions `t` may return: a hit at
      the first position whose attempt matches, an abort at the first
      attempt that ends abnormally, or nothing when no attempt matches. */
  predicate FirstMatchScan(t: seq<nat>, attempt: nat -> RunResult, r: Scan) {
    && (r.Hit? ==> exists k :: 0 <= k < |t| && t[k] == r.pos && NoMatchIn(t, attempt, k)
                     && attempt(t[k]).Finished? && attempt(t[k]).value != MISMATCH)
    && (r.Exhausted? ==> r.bestStart == MISMATCH && NoMatchIn(t, attempt, |t|))
    && (r.Stopped? ==> exists k :: 0 <= k < |t| && NoMatchIn(t, attempt, k) && attempt(t[k]) == Aborted(r.why))
  }

  lemma FirstMatchScanCons(s: nat, t: seq<nat>, attempt: nat -> RunResult, r: Scan)
    requires attempt(s).Finished? && attempt(s).value == MISMATCH
    requires FirstMatchScan(t, attempt, r)
    ensures FirstMatchScan([s] + t, attempt, r)
  {
    var t2 := [s] + t;
    forall k | 0 <= k <= |t| && NoMatchIn(t, attempt, k) ensures NoMatchIn(t2, attempt, k + 1) {
      forall j | 0 <= j < k + 1 ensures attempt(t2[j]).Finished? && attempt(t2[j]).value == MISMATCH {
        if j > 0 { assert t2[j] == t[j - 1]; }
      }
    }
    if r.Hit? {
      var k :| 0 <= k < |t| && t[k] == r.pos && NoMatchIn(t, attempt, k)
        && attempt(t[k]).Finished? && attempt(t[k]).value != MISMATCH;
      assert t2[k + 1] == t[k];
    } else if r.Stopped? {
      var k :| 0 <= k < |t| && NoMatchIn(t, attempt, k) && attempt(t[k]) == Aborted(r.why);
      assert t2[k + 1] == t[k];
    }
  }

  /** The first-match search stops at the first tried position where the
      attempt matches, and runs off the end only when no attempt does. */
  lemma {:induction false} SearchFromFirstMatch(enc: Encoding.Enc, str: seq<Byte>, end: nat, range: nat,
                                                 options: Options, attempt: nat -> RunResult, s: nat,
                                                 region: Option<Region>)
    requires !IsOptionOn(options, OPTION_FIND_LONGEST)
    ensures FirstMatchScan(Tried(enc, str, end, range, s), attempt,
                           SearchFrom(enc, str, end, range, options, attempt, s, MISMATCH, MISMATCH, region))
    decreases if s < end then end - s else 0
  {
    var t := Tried(enc, str, end, range, s);
    var r := SearchFrom(enc, str, end, range, options, attempt, s, MISMATCH, MISMATCH, region);
    if s <= range {
      var res := attempt(s);
      if res.Finished? && res.value == MISMATCH && s < end {
        var s' := s + EncLen(enc, str, s);
        assert t == [s] + Tried(enc, str, end, range, s');
        SearchFromFirstMatch(enc, str, end, range, options, attempt, s', res.m.region);
        FirstMatchScanCons(s, Tried(enc, str, end, range, s'), attempt, r);
      } else {
        assert t[0] == s;
        assert NoMatchIn(t, attempt, 0);
        if r.Exhausted? {
          assert t == [s];
        }
      }
    }
  }

  /** The attempt at the `k`-th position gives the value `len`, and every
      earlier one a strictly smaller value. */
  predicate LongestAt(t: seq<nat>, attempt: nat -> RunResult, k: nat, len: int)
    requires k < |t| && AllFinish(t, attempt, |t|)
  {
    && attempt(t[k]).value == len
    && forall j :: 0 <= j < k ==> attempt(t[j]).value < len
  }

  /** What a longest-match scan over the positions `t`, entered with the
      best start `bs` and length `bl`, may return: an abort at the first
      attempt that ends abnormally, or, when every attempt finishes, a best
      length no attempt exceeds, credited either to the incoming best or
      to the first position that reaches it. */
  predicate LongestScan(t: seq<nat>, attempt: nat -> RunResult, bs: int, bl: int, r: Scan) {
    && !r.Hit?
    && (r.Stopped? ==> exists k :: 0 <= k < |t| && AllFinish(t, attempt, k) && attempt(t[k]) == Aborted(r.why))
    && (r.Exhausted? ==>
          && AllFinish(t, attempt, |t|)
          && r.bestLen >= bl
          && (forall j :: 0 <= j < |t| ==> attempt(t[j]).value <= r.bestLen)
          && (|| (r.bestStart == bs && r.bestLen == bl)
              || (exists k :: 0 <= k < |t| && t[k] == r.bestStart && r.bestLen > bl
                             && LongestAt(t, attempt, k, r.bestLen))))
  }

  lemma LongestScanCons(s: nat, t: seq<nat>, attempt: nat -> RunResult,
                        bs: int, bl: int, bs': int, bl': int, r: Scan)
    requires attempt(s).Finished?
    requires if attempt(s).value > bl then bs' == s && bl' == attempt(s).value else bs' == bs && bl' == bl
    requires LongestScan(t, attempt, bs', bl', r)
    ensures LongestScan([s] + t, attempt, bs, bl, r)
  {
    var t2 := [s] + t;
    if r.Stopped? {
      var k :| 0 <= k < |t| && AllFinish(t, attempt, k) && attempt(t[k]) == Aborted(r.why);
      assert t2[k + 1] == t[k];
      assert AllFinish(t2, attempt, k + 1) by {
        forall j | 0 <= j < k + 1 ensures attempt(t2[j]).Finished? {
          if j > 0 { assert t2[j] == t[j - 1]; }
        }
      }
    } else if r.Exhausted? {
      assert forall j :: 0 < j < |t2| ==> t2[j] == t[j - 1];
      assert AllFinish(t2, attempt, |t2|);
      assert forall j :: 0 <= j < |t2| ==> attempt(t2[j]).value <= r.bestLen;
      if r.bestStart == bs' && r.bestLen == bl' {
        if attempt(s).value > bl {
          assert LongestAt(t2, attempt, 0, r.bestLen);
        }
      } else {
        var k :| 0 <= k < |t| && t[k] == r.bestStart && r.bestLen > bl' && LongestAt(t, attempt, k, r.bestLen);
        assert t2[k + 1] == t[k];
        assert LongestAt(t2, attempt, k + 1, r.bestLen);
      }
    }
  }

  /** The longest-match search credits the longest match among the tried
      positions to the first position that reaches it. */
  lemma {:induction false} SearchFromLongest(enc: Encoding.Enc, str: seq<Byte>, end: nat, range: nat,
                                              options: Options, attempt: nat -> RunResult, s: nat,
                                              bs: int, bl: int, region: Option<Region>)
    requires IsOptionOn(options, OPTION_FIND_LONGEST)
    requires forall q :: attempt(q).Finished? ==> AttemptOk(attempt(q))
    requires bs >= MISMATCH && (bs == MISMATCH <==> bl == MISMATCH) && (bl == MISMATCH || bl >= 0)
    ensures LongestScan(Tried(enc, str, end, range, s), attempt, bs, bl,
                        SearchFrom(enc, str, end, range, options, attempt, s, bs, bl, region))
    decreases if s < end then end - s else 0
  {
    var t := Tried(enc, str, end, range, s);
    var r := SearchFrom(enc, str, end, range, options, attempt, s, bs, bl, region);
    if s <= range {
      var res := attempt(s);
      assert t[0] == s;
      if res.Aborted? {
        assert AllFinish(t, attempt, 0);
      } else {
        var better := res.value > bl;
        var bs' := if better then s else bs;
        var bl' := if better then res.value else bl;
        var s' := s + EncLen(enc, str, s);
        var t' := if s >= end then [] else Tried(enc, str, end, range, s');
        assert t == [s] + t';
        if s < end {
          SearchFromLongest(enc, str, end, range, options, attempt, s', bs', bl', res.m.region);
        }
        LongestScanCons(s, t', attempt, bs, bl, bs', bl', r);
      }
    }
  }

  /** The attempts `onig_search` makes, as a function of the position. */
  function AttemptFn(prog: Program, str: seq<Byte>, end: nat, options: Options, withRegion: bool,
                     fuel: nat): (f: nat -> RunResult)
    requires end <= |str|
    ensures forall q :: f(q) == Attempt(prog, str, end, options, withRegion, q, fuel)
  {
    (q: nat) => Attempt(prog, str, end, options, withRegion, q, fuel)
  }

  /** A scan over attempts that keep the presence of the region hands back
      a region exactly when it was given one. */
  lemma {:induction false} SearchFromKeepsRegion(enc: Encoding.Enc, str: seq<Byte>, end: nat, range: nat,
                                                  options: Options, attempt: nat -> RunResult, s: nat,
                                                  bs: int, bl: int, region: Option<Region>, w: bool)
    requires bs >= MISMATCH && region.Some? == w
    requires forall q :: attempt(q).Finished? ==> (attempt(q).m.region.Some? <==> w)
    ensures var r := SearchFrom(enc, str, end, range, options, attempt, s, bs, bl, region);
      r.Exhausted? ==> (r.region.Some? <==> w)
    decreases if s < end then end - s else 0
  {
    if s <= range && s < end && attempt(s).Finished? {
      var res := attempt(s);
      var len := MatchLen(res);
      var better := res.value != MISMATCH && (bl == MISMATCH || len > bl || (len == bl && bs == MISMATCH));
      SearchFromKeepsRegion(enc, str, end, range, options, attempt, s + EncLen(enc, str, s),
                            if better then s else bs, if better then len else bl, res.m.region, w);
    }
  }

  /** The reply a scan gives when no longest match is re-run: its hit, or
      MISMATCH, or the halt. */
  function ScanReply(scan: Scan): (r: Reply)
    ensures r.Answer? <==> !scan.Stopped?
    ensures r.Answer? ==> r.region == scan.region && (r.value == MISMATCH <==> scan.Exhausted?)
  {
    match scan
    case Stopped(why) => Halted(why)
    case Hit(pos, reg) => Answer(pos, reg)
    case Exhausted(_, _, reg) => Answer(MISMATCH, reg)
  }

  /** The forward search over given attempts: the scan from `start`, then,
      for FIND_LONGEST, one more run at the best start (`rerun`) to fill the
      region. A start past `range` (a backward search) is not searched. */
  function SearchWith(enc: Encoding.Enc, str: seq<Byte>, end: nat, start: nat, range: nat,
                      options: Options, attempt: nat -> RunResult,
                      rerun: (nat, Option<Region>) -> RunResult, region: Option<Region>): (r: Reply)
  {
    if start > range then Answer(MISMATCH, region)
    else
      var scan := SearchFrom(enc, str, end, range, options, attempt, start, MISMATCH, MISMATCH, region);
      if scan.Exhausted? && IsOptionOn(options, OPTION_FIND_LONGEST) && scan.bestStart != MISMATCH then
        match rerun(scan.bestStart, scan.region)
        case Aborted(why) => Halted(why)
        case Finished(_, mf) => Answer(scan.bestStart, mf.region)
      else ScanReply(scan)
  }

  /** The run `onig_search` makes again at the best start: `match_at` on
      the region it has, cleared and resized. */
  function RerunFn(prog: Program, str: seq<Byte>, end: nat, options: Options, fuel: nat)
    : (f: (nat, Option<Region>) -> RunResult)
    requires end <= |str|
  {
    (bs: nat, reg: Option<Region>) => MatchAt(prog, Ctx(str, end, end, bs, options), Prepared(prog, reg), fuel)
  }

  /** `onig_search` forward: try each position from `start` up to `range`.
      The first-match search returns the first position that matches; the
      longest-match search runs the attempt at the best position again to
      fill the region and returns that position. */
  function OnigSearch(prog: Program, str: seq<Byte>, end: nat, start: nat, range: nat,
                      region: Option<Region>, option: Options, fuel: nat): (r: Reply)
    requires end <= |str|
  {
    var options := option | prog.options;
    SearchWith(prog.enc, str, end, start, range, options,
               AttemptFn(prog, str, end, options, region.Some?, fuel),
               RerunFn(prog, str, end, options, fuel), region)
  }

  /** What a first-match search may reply, over the tried positions `t`:
      the first position whose attempt matches; MISMATCH only when every
      attempt finds nothing; a halt only at an attempt that halts after no
      earlier one matched. */
  predicate FirstReply(t: seq<nat>, att: nat -> RunResult, r: Reply) {
    && (r.Answer? && r.value != MISMATCH ==>
          exists k :: 0 <= k < |t| && t[k] == r.value && NoMatchIn(t, att, k)
                      && att(t[k]).Finished? && att(t[k]).value != MISMATCH)
    && (r.Answer? && r.value == MISMATCH ==> NoMatchIn(t, att, |t|))
    && (r.Halted? ==> exists k :: 0 <= k < |t| && NoMatchIn(t, att, k) && att(t[k]) == Aborted(r.why))
  }

  /** What a longest-match search may reply, over the tried positions `t`:
      the first position whose match is the longest; MISMATCH only when no
      attempt matches; a halt only at an attempt that halts. */
  predicate LongestReply(t: seq<nat>, att: nat -> RunResult, r: Reply) {
    && (r.Answer? && r.value != MISMATCH ==>
          && AllFinish(t, att, |t|)
          && exists k :: 0 <= k < |t| && t[k] == r.value && LongestAt(t, att, k, att(t[k]).value)
                         && (forall j :: 0 <= j < |t| ==> att(t[j]).value <= att(t[k]).value))
    && (r.Answer? && r.value == MISMATCH ==> AllFinish(t, att, |t|) && NoMatchIn(t, att, |t|))
    && (r.Halted? ==> exists k :: 0 <= k < |t| && AllFinish(t, att, k) && att(t[k]) == Aborted(r.why))
  }

  /** A first-match scan's reply is a first-match reply. */
  lemma FirstReplyOfScan(t: seq<nat>, att: nat -> RunResult, scan: Scan)
    requires FirstMatchScan(t, att, scan)
    ensures FirstReply(t, att, ScanReply(scan))
  {
    if scan.Hit? {
      assert ScanReply(scan).value == scan.pos;
    }
  }

  /** A longest-match scan from nothing, re-run at its best start, gives a
      longest-match reply. */
  lemma LongestReplyOfScan(t: seq<nat>, att: nat -> RunResult, scan: Scan, r: Reply)
    requires LongestScan(t, att, MISMATCH, MISMATCH, scan)
    requires forall j :: 0 <= j < |t| && att(t[j]).Finished? ==> att(t[j]).value >= MISMATCH
    requires scan.Stopped? ==> r == Halted(scan.why)
    requires scan.Exhausted? && scan.bestStart == MISMATCH ==> r.Answer? && r.value == MISMATCH
    requires scan.Exhausted? && scan.bestStart != MISMATCH ==> r.Answer? && r.value == scan.bestStart
    ensures LongestReply(t, att, r)
  {
    if scan.Exhausted? {
      if scan.bestStart == MISMATCH {
        assert scan.bestLen == MISMATCH;
        forall j | 0 <= j < |t| ensures att(t[j]).Finished? && att(t[j]).value == MISMATCH {
          assert AllFinish(t, att, |t|);
        }
      } else {
        var k :| 0 <= k < |t| && t[k] == scan.bestStart && scan.bestLen > MISMATCH
                 && LongestAt(t, att, k, scan.bestLen);
        assert t[k] == r.value;
      }
    }
  }

  /** The first-match search answers the first tried position whose
      attempt matches. */
  lemma SearchWithFirst(enc: Encoding.Enc, str: seq<Byte>, end: nat, start: nat, range: nat,
                        options: Options, attempt: nat -> RunResult,
                        rerun: (nat, Option<Region>) -> RunResult, region: Option<Region>)
    requires start <= range && !IsOptionOn(options, OPTION_FIND_LONGEST)
    ensures FirstReply(Tried(enc, str, end, range, start), attempt,
                       SearchWith(enc, str, end, start, range, options, attempt, rerun, region))
  {
    SearchFromFirstMatch(enc, str, end, range, options, attempt, start, region);
    FirstReplyOfScan(Tried(enc, str, end, range, start), attempt,
                     SearchFrom(enc, str, end, range, options, attempt, start, MISMATCH, MISMATCH, region));
  }

  /** What the search needs of its attempts: a finished attempt is well
      formed and keeps the presence of the region, and the re-run on a
      region of that presence is the attempt. */
  ghost predicate AttemptsAgree(attempt: nat -> RunResult, rerun: (nat, Option<Region>) -> RunResult, w: bool) {
    && (forall q :: attempt(q).Finished? ==> AttemptOk(attempt(q)) && (attempt(q).m.region.Some? <==> w))
    && (forall q, reg: Option<Region> :: reg.Some? == w ==> rerun(q, reg) == attempt(q))
  }

  /** The longest-match search answers the first tried position whose
      match is the longest. */
  lemma SearchWithLongest(enc: Encoding.Enc, str: seq<Byte>, end: nat, start: nat, range: nat,
                          options: Options, attempt: nat -> RunResult,
                          rerun: (nat, Option<Region>) -> RunResult, region: Option<Region>)
    requires start <= range && IsOptionOn(options, OPTION_FIND_LONGEST)
    requires AttemptsAgree(attempt, rerun, region.Some?)
    ensures LongestReply(Tried(enc, str, end, range, start), attempt,
                         SearchWith(enc, str, end, start, range, options, attempt, rerun, region))
  {
    var t := Tried(enc, str, end, range, start);
    var scan := SearchFrom(enc, str, end, range, options, attempt, start, MISMATCH, MISMATCH, region);
    SearchFromLongest(enc, str, end, range, options, attempt, start, MISMATCH, MISMATCH, region);
    SearchFromKeepsRegion(enc, str, end, range, options, attempt, start, MISMATCH, MISMATCH, region, region.Some?);
    var r := SearchWith(enc, str, end, start, range, options, attempt, rerun, region);
    if scan.Exhausted? && scan.bestStart != MISMATCH {
      var k :| 0 <= k < |t| && t[k] == scan.bestStart && scan.bestLen > MISMATCH
               && LongestAt(t, attempt, k, scan.bestLen);
      assert rerun(t[k], scan.region) == attempt(t[k]);
    }
    LongestReplyOfScan(t, attempt, scan, r);
  }

  /** A position answered is one whose attempt finished with a match, and
      the region answered is the one that attempt filled. */
  predicate AnsweredBy(attempt: nat -> RunResult, r: Reply) {
    r.Answer? && r.value != MISMATCH ==>
      && r.value >= 0 && attempt(r.value).Finished? && attempt(r.value).value != MISMATCH
      && r.region == attempt(r.value).m.region
  }

  /** A position the search answers comes with the region its attempt there
      filled. */
  lemma SearchWithRegion(enc: Encoding.Enc, str: seq<Byte>, end: nat, start: nat, range: nat,
                         options: Options, attempt: nat -> RunResult,
                         rerun: (nat, Option<Region>) -> RunResult, region: Option<Region>)
    requires AttemptsAgree(attempt, rerun, region.Some?)
    ensures AnsweredBy(attempt, SearchWith(enc, str, end, start, range, options, attempt, rerun, region))
  {
    if start <= range {
      var scan := SearchFrom(enc, str, end, range, options, attempt, start, MISMATCH, MISMATCH, region);
      SearchFromKeepsRegion(enc, str, end, range, options, attempt, start, MISMATCH, MISMATCH, region, region.Some?);
      if scan.Exhausted? && IsOptionOn(options, OPTION_FIND_LONGEST) && scan.bestStart != MISMATCH {
        var bs: nat := scan.bestStart;
        assert rerun(bs, scan.region) == attempt(bs);
      }
    }
  }

  /** The attempts `onig_search` makes agree with its re-run. */
  lemma OnigAttemptsAgree(prog: Program, str: seq<Byte>, end: nat, options: Options, w: bool, fuel: nat)
    requires end <= |str|
    ensures AttemptsAgree(AttemptFn(prog, str, end, options, w, fuel), RerunFn(prog, str, end, options, fuel), w)
  {
    var att := AttemptFn(prog, str, end, options, w, fuel);
    var rerun := RerunFn(prog, str, end, options, fuel);
    forall q, reg: Option<Region> | reg.Some? == w ensures rerun(q, reg) == att(q) {
      RerunIsAttempt(prog, str, end, options, w, q, reg, fuel);
    }
  }

  /** Re-running the best start on the region the scan hands back is the
      attempt made there during the scan. */
  lemma RerunIsAttempt(prog: Program, str: seq<Byte>, end: nat, options: Options, w: bool,
                       bs: nat, reg: Option<Region>, fuel: nat)
    requires end <= |str| && reg.Some? == w
    ensures MatchAt(prog, Ctx(str, end, end, bs, options), Prepared(prog, reg), fuel)
            == Attempt(prog, str, end, options, w, bs, fuel)
  {
  }

  /** A start past `range` is not searched: MISMATCH, region untouched. */
  lemma OnigSearchBackward(prog: Program, str: seq<Byte>, end: nat, start: nat, range: nat,
                           region: Option<Region>, option: Options, fuel: nat)
    requires end <= |str| && start > range
    ensures OnigSearch(prog, str, end, start, range, region, option, fuel) == Answer(MISMATCH, region)
  {
  }

  /** `onig_search` without FIND_LONGEST answers the first tried position
      whose attempt matches. */
  lemma OnigSearchFirst(prog: Program, str: seq<Byte>, end: nat, start: nat, range: nat,
                        region: Option<Region>, option: Options, fuel: nat)
    requires end <= |str| && start <= range && !IsOptionOn(option | prog.options, OPTION_FIND_LONGEST)
    ensures FirstReply(Tried(prog.enc, str, end, range, start),
                       AttemptFn(prog, str, end, option | prog.options, region.Some?, fuel),
                       OnigSearch(prog, str, end, start, range, region, option, fuel))
  {
    var options := option | prog.options;
    SearchWithFirst(prog.enc, str, end, start, range, options,
                    AttemptFn(prog, str, end, options, region.Some?, fuel),
                    RerunFn(prog, str, end, options, fuel), region);
  }

  /** `onig_search` with FIND_LONGEST answers the first tried position whose
      match is the longest. */
  lemma OnigSearchLongest(prog: Program, str: seq<Byte>, end: nat, start: nat, range: nat,
                          region: Option<Region>, option: Options, fuel: nat)
    requires end <= |str| && start <= range && IsOptionOn(option | prog.options, OPTION_FIND_LONGEST)
    ensures LongestReply(Tried(prog.enc, str, end, range, start),
                         AttemptFn(prog, str, end, option | prog.options, region.Some?, fuel),
                         OnigSearch(prog, str, end, start, range, region, option, fuel))
  {
    var options := option | prog.options;
    OnigAttemptsAgree(prog, str, end, options, region.Some?, fuel);
    SearchWithLongest(prog.enc, str, end, start, range, options,
                      AttemptFn(prog, str, end, options, region.Some?, fuel),
                      RerunFn(prog, str, end, options, fuel), region);
  }

  /** A position `onig_search` answers comes with the region its attempt
      there filled, whose whole-match slot starts at that position. */
  lemma OnigSearchRegion(prog: Program, str: seq<Byte>, end: nat, start: nat, range: nat,
                         region: Option<Region>, option: Options, fuel: nat)
    requires end <= |str|
    ensures AnsweredBy(AttemptFn(prog, str, end, option | prog.options, region.Some?, fuel),
                       OnigSearch(prog, str, end, start, range, region, option, fuel))
    ensures var r := OnigSearch(prog, str, end, start, range, region, option, fuel);
      r.Answer? && r.value != MISMATCH && r.region.Some? ==>
        && ValidRegion(r.region.value) && r.region.value.numRegs == prog.numMem + 1
        && r.region.value.beg[0] == r.value && r.region.value.end[0] >= r.value
  {
    OnigSearchAnswered(prog, str, end, start, range, region, option, fuel);
    AnsweredRegionStartsThere(prog, str, end, option | prog.options, region.Some?, fuel,
                              OnigSearch(prog, str, end, start, range, region, option, fuel));
  }

  /** The answer of `onig_search` is given by its attempts. */
  lemma OnigSearchAnswered(prog: Program, str: seq<Byte>, end: nat, start: nat, range: nat,
                           region: Option<Region>, option: Options, fuel: nat)
    requires end <= |str|
    ensures AnsweredBy(AttemptFn(prog, str, end, option | prog.options, region.Some?, fuel),
                       OnigSearch(prog, str, end, start, range, region, option, fuel))
  {
    var options := option | prog.options;
    OnigAttemptsAgree(prog, str, end, options, region.Some?, fuel);
    SearchWithRegion(prog.enc, str, end, start, range, options,
                     AttemptFn(prog, str, end, options, region.Some?, fuel),
                     RerunFn(prog, str, end, options, fuel), region);
  }

  /** The region of an answer given by the attempts has its whole match
      starting at the answered position. */
  lemma AnsweredRegionStartsThere(prog: Program, str: seq<Byte>, end: nat, options: Options, w: bool,
                                  fuel: nat, r: Reply)
    requires end <= |str| && AnsweredBy(AttemptFn(prog, str, end, options, w, fuel), r)
    ensures r.Answer? && r.value != MISMATCH && r.region.Some? ==>
      && ValidRegion(r.region.value) && r.region.value.numRegs == prog.numMem + 1
      && r.region.value.beg[0] == r.value && r.region.value.end[0] >= r.value
  {
    if r.Answer? && r.value != MISMATCH {
      var q: nat := r.value;
      var a := Attempt(prog, str, end, options, w, q, fuel);
      assert AttemptFn(prog, str, end, options, w, fuel)(q) == a;
      assert IsMatchLength(prog, Ctx(str, end, end, q, options), a.value, a.m.region);
    }
  }
}
