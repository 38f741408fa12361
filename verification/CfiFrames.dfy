/** The debugger's interpreter and the unwinder against the unwind table of section 6.4 of DWARF 4, from the
    bytes of a frame. */
module CfiFrames {
  import opened Words
  import opened Cursors
  import opened Cfi
  import opened CfiTables
  import opened CfiStandard
  import opened CfiFollows

  // ----- Programs -----

  /** One instruction of the standard's leads from one place and context to the next. */
  predicate Leads(env: Env, data: seq<byte>, a: Read<Context>, b: Read<Context>) {
    Meant(env, data, a.next, a.value) == Ok(b)
  }

  /** A run of the standard's interpreter from the start of a program. */
  ghost predicate IsRun(env: Env, data: seq<byte>, states: seq<Read<Context>>) {
    && states != [] && states[0].next == 0
    && forall k :: 0 <= k < |states| - 1 ==> Leads(env, data, states[k], states[k + 1])
  }

  lemma {:induction false} UntilCompose(env: Env, data: seq<byte>, pos: nat, s: Context, a: nat, b: nat)
    requires a <= b && Until(env, data, pos, s, a).Ok?
    ensures var r := Until(env, data, pos, s, a).value;
            Until(env, data, pos, s, b) == Until(env, data, r.next, r.value, b)
    decreases a - pos
  {
    if pos < a {
      var step := StepAt(env, data, pos, s).value;
      UntilCompose(env, data, step.next, step.value, a, b);
    }
  }

  /** The debugger, started in context `s`, passes through this place with this context. */
  predicate Passes(env: Env, data: seq<byte>, s: Context, r: Read<Context>) {
    Until(env, data, 0, s, r.next) == Ok(r)
  }

  /** The instruction at this place is harmless in this context. */
  predicate HarmlessAt(env: Env, data: seq<byte>, r: Read<Context>) {
    StandardAt(env, data, r.next).Ok? && Harmless(env, data, r.next, r.value)
  }

  lemma StepInStep(env: Env, data: seq<byte>, s: Context, a: Read<Context>, b: Read<Context>)
    requires Leads(env, data, a, b) && Passes(env, data, s, a)
    ensures Passes(env, data, s, b) <==> HarmlessAt(env, data, a)
  {
    FollowsExactly(env, data, a.next, a.value);
    UntilCompose(env, data, 0, s, a.next, b.next);
  }

  lemma {:induction false} StaysInStep(env: Env, data: seq<byte>, states: seq<Read<Context>>, k: nat)
    requires IsRun(env, data, states) && k < |states| && forall j :: 0 <= j < k ==> HarmlessAt(env, data, states[j])
    ensures Passes(env, data, states[0].value, states[k])
    decreases k
  {
    if k > 0 {
      StaysInStep(env, data, states, k - 1);
      assert Leads(env, data, states[k - 1], states[k - 1 + 1]);
      StepInStep(env, data, states[0].value, states[k - 1], states[k]);
    }
  }

  /** For every program that the standard can run, the debugger passes through all of its places and contexts,
      rule stack included, if and only if each instruction is harmless in the context that it meets. */
  lemma FollowsProgramExactly(env: Env, data: seq<byte>, states: seq<Read<Context>>)
    requires IsRun(env, data, states)
    ensures (forall k :: 0 <= k < |states| ==> Passes(env, data, states[0].value, states[k]))
            <==> (forall k :: 0 <= k < |states| - 1 ==> HarmlessAt(env, data, states[k]))
  {
    var s := states[0].value;
    if forall k :: 0 <= k < |states| ==> Passes(env, data, s, states[k]) {
      forall k | 0 <= k < |states| - 1
        ensures HarmlessAt(env, data, states[k])
      {
        assert Leads(env, data, states[k], states[k + 1]) && Passes(env, data, s, states[k]) && Passes(env, data, s, states[k + 1]);
        StepInStep(env, data, s, states[k], states[k + 1]);
      }
    }
    if forall k :: 0 <= k < |states| - 1 ==> HarmlessAt(env, data, states[k]) {
      forall k | 0 <= k < |states|
        ensures Passes(env, data, s, states[k])
      {
        StaysInStep(env, data, states, k);
      }
    }
  }

  // ----- The whole of unwind -----

  predicate NotBeyond(location: u64, limit: Option<u64>) {
    limit.Some? ==> location <= limit.value
  }

  /** Every instruction that the loop executes, up to the first location beyond the limit, is one of the
      standard's and harmless. */
  predicate HarmlessUpTo(env: Env, data: seq<byte>, pos: nat, s: Context, limit: Option<u64>)
    decreases |data| - pos
  {
    pos < |data| && NotBeyond(s.location, limit) ==>
      && Meant(env, data, pos, s).Ok? && Harmless(env, data, pos, s)
      && HarmlessUpTo(env, data, Meant(env, data, pos, s).value.next, Meant(env, data, pos, s).value.value, limit)
  }

  /** The loop runs a quiet number without a change and without stopping inside it. */
  lemma {:induction false} RunsQuietly(env: Env, data: seq<byte>, pos: nat, s: Context, limit: Option<u64>, count: nat)
    requires LebEnd(data, pos, count).Ok? && NotBeyond(s.location, limit)
    requires Quiet(env, data, pos, LebEnd(data, pos, count).value, s)
    ensures RunBytes(env, data, pos, s, limit) == RunBytes(env, data, LebEnd(data, pos, count).value, s, limit)
    decreases |data| - pos
  {
    if data[pos] < 0x80 {
      LastByteExactly(env, data, pos, s);
    } else if data[pos] >= 0xc0 {
      RestoreStep(env, data, pos, s);
      RunsQuietly(env, data, pos + 1, s, limit, count + 1);
    } else {
      OffsetStep(env, data, pos, s, count);
    }
  }

  lemma RunsThrough(env: Env, data: seq<byte>, pos: nat, s: Context, limit: Option<u64>)
    requires pos < |data| && NotBeyond(s.location, limit) && Meant(env, data, pos, s).Ok? && Harmless(env, data, pos, s)
    ensures var m := Meant(env, data, pos, s).value;
            RunBytes(env, data, pos, s, limit) == RunBytes(env, data, m.next, m.value, limit)
  {
    var m := Meant(env, data, pos, s).value;
    FollowsExactly(env, data, pos, s);
    if data[pos] == 0x0d {
      assert m.value == s;
      assert StepAt(env, data, pos, s) == Ok(Read(s, pos + 1));
      RunsQuietly(env, data, pos + 1, s, limit, 0);
    } else {
      StepEnds(env, data, pos, s);
    }
  }

  lemma SameEnd(env: Env, data: seq<byte>, pos: nat, s: Context)
    requires pos < |data| && data[pos] != 0x0d && Meant(env, data, pos, s).Ok?
    ensures DecodeAt(env, data, pos).Ok? && DecodeAt(env, data, pos).value.next == Meant(env, data, pos, s).value.next
  {
    if data[pos] == 0x01 {
      SamePointerEnd(env, data, pos, s);
    } else {
      SameOperandsEnd(env, data, pos, s);
    }
  }

  lemma SamePointerEnd(env: Env, data: seq<byte>, pos: nat, s: Context)
    requires pos < |data| && data[pos] == 0x01 && Meant(env, data, pos, s).Ok?
    ensures DecodeAt(env, data, pos).Ok? && DecodeAt(env, data, pos).value.next == Meant(env, data, pos, s).value.next
  {
    LocationExactly(env, data, pos + 1);
  }

  lemma SameOperandsEnd(env: Env, data: seq<byte>, pos: nat, s: Context)
    requires pos < |data| && data[pos] != 0x01 && data[pos] != 0x0d && Meant(env, data, pos, s).Ok?
    ensures DecodeAt(env, data, pos).Ok? && DecodeAt(env, data, pos).value.next == Meant(env, data, pos, s).value.next
  {
    DecodesAsSeen(env, data, pos, OperandsAt(env, data, pos + 1, ShapeOf(data[pos])).value);
  }

  lemma StepEnds(env: Env, data: seq<byte>, pos: nat, s: Context)
    requires pos < |data| && data[pos] != 0x0d && Meant(env, data, pos, s).Ok? && Follows(env, data, pos, s)
    ensures StepAt(env, data, pos, s) == Meant(env, data, pos, s)
  {
    SameEnd(env, data, pos, s);
    OneStep(env, data, pos, s);
  }

  /** The early-stopping loop on the decoded program of the standard. */
  function StandardRun(prog: seq<Instr>, s: Context, limit: Option<u64>): Result<Context> {
    if limit.None? then Exec(Overwrite, prog, s) else ExecUntil(Overwrite, prog, s, limit.value)
  }

  lemma {:induction false} RunIsTheStandards(env: Env, data: seq<byte>, pos: nat, s: Context, limit: Option<u64>)
    requires Standard(env, data, pos).Ok? && HarmlessUpTo(env, data, pos, s, limit)
    ensures RunBytes(env, data, pos, s, limit) == StandardRun(Standard(env, data, pos).value, s, limit)
    decreases |data| - pos
  {
    if pos < |data| && NotBeyond(s.location, limit) {
      var m := Meant(env, data, pos, s).value;
      RunsThrough(env, data, pos, s, limit);
      RunIsTheStandards(env, data, m.next, m.value, limit);
      assert Standard(env, data, pos).value[1..] == Standard(env, data, m.next).value;
    }
  }

  /** The state in which the standard starts a frame's program. */
  function StandardStart(f: Frame): Result<Context> {
    var cie :- Standard(f.CieEnv(), f.cieProgram, 0);
    var s :- Exec(Overwrite, cie, INITIAL);
    Ok(s.(cieRules := s.rules, location := f.start))
  }

  /** The table that section 6.4 gives for a frame. */
  function StandardTable(f: Frame): Result<seq<Row>> {
    var prog :- Standard(f.env, f.program, 0);
    var s :- StandardStart(f);
    Table(Overwrite, prog, s)
  }

  /** All instructions of the CIE's program are harmless, and those of the frame's that run for `pc`. */
  predicate HarmlessFrame(f: Frame, pc: u64)
    requires StandardStart(f).Ok?
  {
    HarmlessUpTo(f.CieEnv(), f.cieProgram, 0, INITIAL, None) && HarmlessUpTo(f.env, f.program, 0, StandardStart(f).value, Some(pc))
  }

  lemma RunGivesRow(env: Env, data: seq<byte>, s: Context, pc: u64, prog: seq<Instr>, rows: seq<Row>)
    requires Standard(env, data, 0) == Ok(prog) && Table(Overwrite, prog, s) == Ok(rows) && NonDecreasing(rows)
    requires s.location <= pc && HarmlessUpTo(env, data, 0, s, Some(pc))
    ensures var r := RunBytes(env, data, 0, s, Some(pc)); r.Ok? && HoldsRowAt(rows, pc, r.value)
  {
    RunIsTheStandards(env, data, 0, s, Some(pc));
    UntilIsLastRow(Overwrite, prog, s, pc);
  }

  lemma CieIsPrepared(f: Frame)
    requires StandardStart(f).Ok? && HarmlessUpTo(f.CieEnv(), f.cieProgram, 0, INITIAL, None)
    ensures Prepared(f) == StandardStart(f)
  {
    RunIsTheStandards(f.CieEnv(), f.cieProgram, 0, INITIAL, None);
  }

  /** `unwind` from the bytes: for every frame whose table never decreases the location, and every `pc` up to
      which its instructions are harmless, the context that it hands to the unwind rules holds exactly the last
      row at or below `pc` of the table that section 6.4 of DWARF 4 gives. */
  lemma UnwindIsStandardRow(f: Frame, pc: u64)
    requires f.start <= pc < Wrap64(f.start + f.range)
    requires StandardTable(f).Ok? && NonDecreasing(StandardTable(f).value)
    requires HarmlessFrame(f, pc)
    ensures ContextAt(f, pc).Ok? && HoldsRowAt(StandardTable(f).value, pc, ContextAt(f, pc).value)
  {
    CieIsPrepared(f);
    ContextIsRun(f, pc, StandardStart(f).value);
    RunGivesRow(f.env, f.program, StandardStart(f).value, pc, Standard(f.env, f.program, 0).value, StandardTable(f).value);
  }

  lemma ContextIsRun(f: Frame, pc: u64, s: Context)
    requires f.start <= pc < Wrap64(f.start + f.range) && Prepared(f) == Ok(s)
    ensures ContextAt(f, pc) == RunBytes(f.env, f.program, 0, s, Some(pc))
  {
  }

  // ----- Witnesses -----

  /** `def_cfa(7, 8)`, which most CIEs start with. */
  const CIE := [0x0c, 7, 8]

  lemma SmallOperand(data: seq<byte>, pos: nat)
    requires pos < |data| && data[pos] < 0x80
    ensures Unsigned(data, pos) == Ok(Read(data[pos], pos + 1)) && UlebAt(data, pos) == Ok(Read(data[pos], pos + 1))
  {
    assert data[pos..pos + 1] == [data[pos]];
    OneGroup(data[pos]);
  }

  lemma OneInstruction(env: Env, data: seq<byte>, i: Instr, s: Context)
    requires StandardAt(env, data, 0) == Ok(Read(i, |data|)) && !Moves(i)
    ensures Standard(env, data, 0) == Ok([i])
    ensures Exec(Overwrite, [i], s) == Apply(Overwrite, i, s)
    ensures Apply(Overwrite, i, s).Ok? ==> Table(Overwrite, [i], s) == Ok([RowOf(Apply(Overwrite, i, s).value)])
  {
    assert Standard(env, data, |data|) == Ok([]) && [i] + [] == [i] && [i][1..] == [];
  }

  /** The state in which a frame of that CIE starts. */
  function CieState(f: Frame): Context {
    INITIAL.(cfa := CfaRule(7, 8), location := f.start)
  }

  lemma CieStarts(f: Frame)
    requires f.cieProgram == CIE
    ensures StandardStart(f) == Ok(CieState(f)) && Prepared(f) == Ok(CieState(f))
  {
    var s := INITIAL.(cfa := CfaRule(7, 8));
    SmallOperand(CIE, 1);
    SmallOperand(CIE, 2);
    OneInstruction(f.CieEnv(), CIE, DefCfa(7, 8), INITIAL);
    assert StepAt(f.CieEnv(), CIE, 0, INITIAL) == Ok(Read(s, 3));
    assert RunBytes(f.CieEnv(), CIE, 3, s, None) == Ok(s);
  }

  lemma CfaRegisterTable(f: Frame, reg: byte)
    requires f.cieProgram == CIE && f.program == [0x0d, reg] && reg < 0x80
    ensures StandardTable(f) == Ok([Row(f.start, CfaRule(reg, 8), map[])])
  {
    CieStarts(f);
    SmallOperand(f.program, 1);
    OneInstruction(f.env, f.program, DefCfaRegister(reg), CieState(f));
  }

  /** The debugger passes over the opcode. */
  lemma CfaRegisterRun(f: Frame, pc: u64)
    requires f.cieProgram == CIE && |f.program| == 2 && f.program[0] == 0x0d && f.start <= pc < Wrap64(f.start + f.range)
    ensures ContextAt(f, pc) == RunBytes(f.env, f.program, 1, CieState(f), Some(pc))
  {
    CieStarts(f);
    ContextIsRun(f, pc, CieState(f));
    assert StepAt(f.env, f.program, 0, CieState(f)) == Ok(Read(CieState(f), 1));
  }

  /** A last byte that is a `nop`, and one that is a `restore_extended` without an operand. */
  lemma LastNop(env: Env, data: seq<byte>, s: Context, pc: u64)
    requires |data| == 2 && data[1] == 0x00 && s.location <= pc
    ensures RunBytes(env, data, 1, s, Some(pc)) == Ok(s)
  {
    assert StepAt(env, data, 1, s) == Ok(Read(s, 2));
    assert RunBytes(env, data, 2, s, Some(pc)) == Ok(s);
  }

  lemma LastRestore(env: Env, data: seq<byte>, s: Context, pc: u64)
    requires |data| == 2 && data[1] == 0x06 && s.location <= pc
    ensures RunBytes(env, data, 1, s, Some(pc)) == Err(OutOfData)
  {
    assert StepAt(env, data, 1, s) == Err(OutOfData);
  }

  /** A frame that sets the CFA register to 0: the standard's table has it, and the debugger keeps 7. */
  lemma CfaRegisterIsKept(f: Frame, pc: u64)
    requires f.cieProgram == CIE && f.program == [0x0d, 0x00] && f.start <= pc < Wrap64(f.start + f.range)
    ensures StandardTable(f) == Ok([Row(f.start, CfaRule(0, 8), map[])])
    ensures ContextAt(f, pc).Ok? && ContextAt(f, pc).value.cfa == CfaRule(7, 8)
  {
    CfaRegisterTable(f, 0);
    CfaRegisterRun(f, pc);
    LastNop(f.env, f.program, CieState(f), pc);
  }

  /** The frame pointer: `def_cfa_register(6)` at the end of a program, where the operand is run as a
      `restore_extended` that finds no operand of its own. */
  lemma FramePointerFails(f: Frame, pc: u64)
    requires f.cieProgram == CIE && f.program == [0x0d, 0x06] && f.start <= pc < Wrap64(f.start + f.range)
    ensures StandardTable(f) == Ok([Row(f.start, CfaRule(6, 8), map[])])
    ensures ContextAt(f, pc) == Err(OutOfData)
  {
    CfaRegisterTable(f, 6);
    CfaRegisterRun(f, pc);
    LastRestore(f.env, f.program, CieState(f), pc);
  }
}
