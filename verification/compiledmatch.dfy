// The literal instructions the compiler emits, run by the matcher: the
// payload `add_compile_string` and `compile_string_crude_node` choose must
// be the one the instruction reads (src/regcomp.rs, src/regexec.rs).

module CompiledMatch {
  import opened Wrappers
  import opened Oniguruma
  import opened Regint
  import opened Exec
  import Compile
  import Encoding

  /** As written, a single-byte literal of 6 to 16 bytes gets the StrN
      instruction with the inline `Exact` payload, and StrN reads only an
      `ExactN` payload: the instruction fails whatever the subject holds,
      even where the subject spells the literal out. */
  lemma LiteralAsWrittenNeverMatches(prog: Program, ctx: Ctx, m: Machine, s: seq<Byte>)
    requires ValidCtx(ctx) && MachineOk(prog, m) && m.p < |prog.ops|
    requires 6 <= |s| <= 16
    requires prog.ops[m.p] == Compile.StringOpAsWritten(s, 1, |s|)
    ensures Step(prog, ctx, m).Failed?
  {
    assert prog.ops[m.p].opcode == StrN;
  }

  /** The same for the crude literal of 6 to 16 bytes. */
  lemma CrudeLiteralAsWrittenNeverMatches(prog: Program, ctx: Ctx, m: Machine, s: seq<Byte>)
    requires ValidCtx(ctx) && MachineOk(prog, m) && m.p < |prog.ops|
    requires 6 <= |s| <= 16
    requires prog.ops[m.p] == Compile.CrudeStringOpAsWritten(s)
    ensures Step(prog, ctx, m).Failed?
  {
    assert prog.ops[m.p].opcode == StrN;
  }

  /** The six bytes of "abcdef". */
  function Abcdef(): (s: seq<Byte>)
    ensures |s| == 6
  {
    [0x61, 0x62, 0x63, 0x64, 0x65, 0x66]
  }

  /** A concrete case: the pattern "abcdef" compiled as written, matched
      at 0 against "abcdef" itself, finds nothing. */
  lemma AbcdefAsWrittenMismatches()
    ensures var prog := Program([Compile.StringOpAsWritten(Abcdef(), 1, 6), Operation(End, NoPayload)],
                                [], 0, PopFree, 0, Encoding.Utf8Enc);
      && LiteralAt(Ctx(Abcdef(), 6, 6, 0, 0), 0, Abcdef(), 6)
      && OnigMatch(prog, Abcdef(), 6, 0, None, 0, 4) == Answer(MISMATCH, None)
  {
    var prog := Program([Compile.StringOpAsWritten(Abcdef(), 1, 6), Operation(End, NoPayload)],
                        [], 0, PopFree, 0, Encoding.Utf8Enc);
    var ctx := Ctx(Abcdef(), 6, 6, 0, 0);
    var m0 := InitialMachine(prog, 0, None);
    LiteralAsWrittenNeverMatches(prog, ctx, m0, Abcdef());
    var o := Advance(prog, ctx, m0);
    assert o.Stop? && o.result == MISMATCH;
    assert Abcdef()[0..6] == Abcdef()[..6];
  }

  /** The same pattern compiled with the agreeing payload matches all six
      bytes. */
  lemma AbcdefMatches()
    ensures var prog := Program([Compile.StringOp(Abcdef(), 1, 6), Operation(End, NoPayload)],
                                [], 0, PopFree, 0, Encoding.Utf8Enc);
      OnigMatch(prog, Abcdef(), 6, 0, None, 0, 4) == Answer(6, None)
  {
    var prog := Program([Compile.StringOp(Abcdef(), 1, 6), Operation(End, NoPayload)],
                        [], 0, PopFree, 0, Encoding.Utf8Enc);
    var ctx := Ctx(Abcdef(), 6, 6, 0, 0);
    var m0 := InitialMachine(prog, 0, None);
    LiteralMatches(prog, ctx, m0, Abcdef(), 1, 6);
    var m1 := m0.(s := 6, p := 1);
    assert Abcdef()[0..6] == Abcdef()[..6];
    assert Advance(prog, ctx, m0) == Next(m1);
    assert Run(prog, ctx, m1, 3) == Finished(6, m1.(bestLen := 6));
  }

  /** A literal opcode goes to the literal step. */
  lemma LiteralDispatch(prog: Program, ctx: Ctx, m: Machine)
    requires ValidCtx(ctx) && MachineOk(prog, m) && m.p < |prog.ops|
    requires IsStrOpcode(prog.ops[m.p].opcode)
    ensures Step(prog, ctx, m) == StepLiteral(ctx, m, prog.ops[m.p])
  {
  }

  /** What a literal step promises: it steps past exactly `n` bytes when the
      subject holds the literal, and fails otherwise. */
  predicate LiteralOutcome(ctx: Ctx, m: Machine, lit: seq<Byte>, n: nat, o: Outcome)
    requires ValidCtx(ctx) && n <= |lit|
  {
    && (o.Next? || o.Failed?)
    && (o.Next? <==> LiteralAt(ctx, m.s, lit, n))
    && (o.Next? ==> o.m == m.(s := m.s + n, p := m.p + 1))
  }

  /** Up to five single bytes: the inline buffer holds the literal. */
  lemma ShortLiteralStep(ctx: Ctx, m: Machine, s: seq<Byte>, strLen: nat)
    requires ValidCtx(ctx) && 1 <= strLen <= 5 && strLen <= |s|
    ensures LiteralOutcome(ctx, m, s, strLen, StepLiteral(ctx, m, Compile.StringOp(s, 1, strLen)))
  {
    var op := Compile.StringOp(s, 1, strLen);
    assert op.payload.buf[..strLen] == s[..strLen];
  }

  /** Six or more single bytes: STR_N with the counted payload. */
  lemma LongLiteralStep(ctx: Ctx, m: Machine, s: seq<Byte>, strLen: nat)
    requires ValidCtx(ctx) && 5 < strLen <= |s|
    ensures LiteralOutcome(ctx, m, s, strLen, StepLiteral(ctx, m, Compile.StringOp(s, 1, strLen)))
  {
    assert s[..strLen][..strLen] == s[..strLen];
  }

  /** Multi-byte characters: the counted payload with its width. */
  lemma WideLiteralStep(ctx: Ctx, m: Machine, s: seq<Byte>, mbLen: int, strLen: int)
    requires ValidCtx(ctx) && 1 < mbLen && 1 <= strLen && mbLen * strLen <= |s|
    ensures LiteralOutcome(ctx, m, s, mbLen * strLen, StepLiteral(ctx, m, Compile.StringOp(s, mbLen, strLen)))
  {
    var n := mbLen * strLen;
    assert s[..n][..n] == s[..n];
  }

  /** With the payload agreeing with the opcode, a literal instruction of
      any width and length steps past exactly when the subject holds the
      literal at the current position, and fails otherwise. */
  lemma LiteralMatches(prog: Program, ctx: Ctx, m: Machine, s: seq<Byte>, mbLen: int, strLen: int)
    requires ValidCtx(ctx) && MachineOk(prog, m) && m.p < |prog.ops|
    requires 1 <= mbLen && 1 <= strLen && mbLen * strLen <= |s|
    requires prog.ops[m.p] == Compile.StringOp(s, mbLen, strLen)
    ensures LiteralOutcome(ctx, m, s, mbLen * strLen, Step(prog, ctx, m))
  {
    StringOpStep(ctx, m, s, mbLen, strLen);
    StepIsLiteralStep(prog, ctx, m, s, mbLen * strLen);
  }

  /** The literal step of the agreeing instruction, for every width. */
  lemma StringOpStep(ctx: Ctx, m: Machine, s: seq<Byte>, mbLen: int, strLen: int)
    requires ValidCtx(ctx) && 1 <= mbLen && 1 <= strLen && mbLen * strLen <= |s|
    ensures IsStrOpcode(Compile.StringOp(s, mbLen, strLen).opcode)
    ensures LiteralOutcome(ctx, m, s, mbLen * strLen, StepLiteral(ctx, m, Compile.StringOp(s, mbLen, strLen)))
  {
    if mbLen == 1 {
      assert mbLen * strLen == strLen;
      if strLen <= 5 {
        ShortLiteralStep(ctx, m, s, strLen);
      } else {
        LongLiteralStep(ctx, m, s, strLen);
      }
    } else {
      WideLiteralStep(ctx, m, s, mbLen, strLen);
    }
  }

  /** A literal step's promise carries over to the machine's step. */
  lemma StepIsLiteralStep(prog: Program, ctx: Ctx, m: Machine, lit: seq<Byte>, n: nat)
    requires ValidCtx(ctx) && MachineOk(prog, m) && m.p < |prog.ops| && n <= |lit|
    requires IsStrOpcode(prog.ops[m.p].opcode)
    requires LiteralOutcome(ctx, m, lit, n, StepLiteral(ctx, m, prog.ops[m.p]))
    ensures LiteralOutcome(ctx, m, lit, n, Step(prog, ctx, m))
  {
    LiteralDispatch(prog, ctx, m);
  }

  /** Every literal instruction, whatever payload it carries, steps past
      exactly when its payload is one the opcode reads and the subject holds
      the bytes that payload spells; an instruction with no readable literal
      never succeeds. */
  lemma LiteralTextIsWhatMatches(ctx: Ctx, m: Machine, op: Operation)
    requires ValidCtx(ctx) && IsStrOpcode(op.opcode)
    ensures var o := StepLiteral(ctx, m, op);
      var t := Compile.LiteralText(op);
      && (o.Next? <==> t.Some? && LiteralAt(ctx, m.s, t.value, |t.value|))
      && (o.Next? ==> o.m.s == m.s + |t.value|)
  {
    var t := Compile.LiteralText(op);
    if op.payload.Exact? && t.Some? {
      assert op.payload.buf[..|t.value|] == t.value;
    } else if op.payload.ExactN? || op.payload.ExactLenN? {
      if 0 <= op.payload.n <= |op.payload.s| {
        assert op.payload.s[..op.payload.n][..op.payload.n] == op.payload.s[..op.payload.n];
      }
    }
  }

  /** Every byte of "abcdef" is a one-byte character. */
  lemma AbcdefWidths()
    ensures forall q :: 0 <= q < 6 ==> Encoding.EncLenAt(Encoding.Utf8Enc, Abcdef(), q) == 1
  {
    forall q | 0 <= q < 6 ensures Encoding.EncLenAt(Encoding.Utf8Enc, Abcdef(), q) == 1 {
      assert Abcdef()[q..][0] == Abcdef()[q] < 0x80;
    }
  }

  /** A text of one-byte characters from `p` on is whole characters and
      one run of width 1 to its end. */
  lemma {:induction false} OneByteRun(enc: Encoding.Enc, s: seq<Byte>, p: nat)
    requires p <= |s| && forall q :: p <= q < |s| ==> Encoding.EncLenAt(enc, s, q) == 1
    ensures Compile.WholeChars(enc, s, p)
    ensures Compile.RunFrom(enc, s, p, 1) == (|s| - p, |s|)
    decreases |s| - p
  {
    if p < |s| {
      OneByteRun(enc, s, p + 1);
    }
  }

  /** A non-empty string of one-byte characters compiles to a single
      literal instruction of all its bytes, as written and with agreeing
      payloads. */
  lemma OneByteNode(enc: Encoding.Enc, s: seq<Byte>)
    requires 0 < |s| && forall q :: 0 <= q < |s| ==> Encoding.EncLenAt(enc, s, q) == 1
    ensures Compile.WholeChars(enc, s, 0)
    ensures Compile.CompileStringNode(enc, s) == [Compile.StringOp(s, 1, |s|)]
    ensures Compile.CompileStringNodeAsWritten(enc, s) == [Compile.StringOpAsWritten(s, 1, |s|)]
  {
    OneByteRun(enc, s, 0);
    OneByteRun(enc, s, 1);
    assert Compile.FirstRun(enc, s, 0) == Compile.Run(1, |s|, |s|);
    assert s[0..] == s;
    Compile.StringOpsFromUnfold(enc, s, 0);
    Compile.StringOpsFromAsWrittenUnfold(enc, s, 0);
  }

  /** The string node "abcdef" compiles, as written, to the one instruction
      AbcdefAsWrittenMismatches runs, which has no readable literal; with
      agreeing payloads it compiles to the one AbcdefMatches runs. */
  lemma AbcdefNode()
    ensures Compile.WholeChars(Encoding.Utf8Enc, Abcdef(), 0)
    ensures Compile.CompileStringNodeAsWritten(Encoding.Utf8Enc, Abcdef()) == [Compile.StringOpAsWritten(Abcdef(), 1, 6)]
    ensures Compile.LiteralText(Compile.StringOpAsWritten(Abcdef(), 1, 6)).None?
    ensures Compile.CompileStringNode(Encoding.Utf8Enc, Abcdef()) == [Compile.StringOp(Abcdef(), 1, 6)]
  {
    AbcdefWidths();
    OneByteNode(Encoding.Utf8Enc, Abcdef());
  }
}
