/** What the call-frame interpreter computes, against the unwind table of section 6.4 of DWARF 4. */
module CfiTables {
  import opened Words
  import opened Cursors
  import opened Cfi

  // ----- Programs as instruction lists -----

  function DecodeAll(env: Env, data: seq<byte>, pos: nat): Result<seq<Instr>>
    decreases |data| - pos
  {
    if pos >= |data| then Ok([])
    else
      var i :- DecodeAt(env, data, pos);
      var rest :- DecodeAll(env, data, i.next);
      Ok([i.value] + rest)
  }

  function Exec(policy: Policy, prog: seq<Instr>, s: Context): Result<Context> {
    if prog == [] then Ok(s)
    else
      var s' :- Apply(policy, prog[0], s);
      Exec(policy, prog[1..], s')
  }

  /** The early-stopping loop on the decoded program. */
  function ExecUntil(policy: Policy, prog: seq<Instr>, s: Context, pc: u64): Result<Context> {
    if prog == [] || s.location > pc then Ok(s)
    else
      var s' :- Apply(policy, prog[0], s);
      ExecUntil(policy, prog[1..], s', pc)
  }

  lemma {:induction false} RunIsExec(env: Env, data: seq<byte>, pos: nat, s: Context, limit: Option<u64>)
    requires DecodeAll(env, data, pos).Ok?
    ensures RunBytes(env, data, pos, s, limit)
         == match limit
            case None => Exec(Emplace, DecodeAll(env, data, pos).value, s)
            case Some(pc) => ExecUntil(Emplace, DecodeAll(env, data, pos).value, s, pc)
    decreases |data| - pos
  {
    if pos < |data| {
      var i := DecodeAt(env, data, pos).value;
      var s' := Apply(Emplace, i.value, s);
      assert DecodeAll(env, data, pos).value[1..] == DecodeAll(env, data, i.next).value;
      if s'.Ok? {
        RunIsExec(env, data, i.next, s'.value, limit);
      }
    }
  }

  lemma {:induction false} ExecSplit(policy: Policy, a: seq<Instr>, b: seq<Instr>, s: Context)
    ensures Exec(policy, a + b, s)
         == match Exec(policy, a, s) case Ok(s') => Exec(policy, b, s') case Err(e) => Err(e)
    decreases a
  {
    if a == [] {
      assert a + b == b;
    } else {
      assert (a + b)[1..] == a[1..] + b;
      var s' := Apply(policy, a[0], s);
      if s'.Ok? {
        ExecSplit(policy, a[1..], b, s'.value);
      }
    }
  }

  // ----- The unwind table of section 6.4.3 -----

  datatype Row = Row(location: u64, cfa: CfaRule, rules: Rules)

  function RowOf(s: Context): Row {
    Row(s.location, s.cfa, s.rules)
  }

  predicate Moves(i: Instr) {
    i.Advance? || i.SetLocation?
  }

  /** The fully expanded table: a row is complete when the location moves on or the program ends. */
  function Table(policy: Policy, prog: seq<Instr>, s: Context): (t: Result<seq<Row>>)
    ensures t.Ok? ==> t.value != []
  {
    if prog == [] then Ok([RowOf(s)])
    else
      var s' :- Apply(policy, prog[0], s);
      var rest :- Table(policy, prog[1..], s');
      Ok(if Moves(prog[0]) then [RowOf(s)] + rest else rest)
  }

  /** How many leading rows start at or below `pc`. */
  function Leading(rows: seq<Row>, pc: u64): (n: nat)
    ensures n <= |rows|
  {
    if rows == [] || rows[0].location > pc then 0 else 1 + Leading(rows[1..], pc)
  }

  /** The last row of the table that starts at or below `pc`. */
  function RowAt(rows: seq<Row>, pc: u64): Option<Row> {
    if rows == [] then None
    else
      var last := |rows| - 1;
      if rows[last].location <= pc then Some(rows[last]) else RowAt(rows[..last], pc)
  }

  predicate LastAtOrBelow(rows: seq<Row>, k: nat, pc: u64) {
    k < |rows| && rows[k].location <= pc && forall j :: k < j < |rows| ==> rows[j].location > pc
  }

  predicate NonDecreasing(rows: seq<Row>) {
    forall i, j :: 0 <= i < j < |rows| ==> rows[i].location <= rows[j].location
  }

  lemma {:induction false} FirstRow(policy: Policy, prog: seq<Instr>, s: Context)
    requires Table(policy, prog, s).Ok?
    ensures Table(policy, prog, s).value[0].location == s.location
  {
    if prog != [] && !Moves(prog[0]) {
      FirstRow(policy, prog[1..], Apply(policy, prog[0], s).value);
    }
  }

  /** For any program that runs, however its locations move, the early-stopping loop leaves the rules
      of the row just before the first one beyond `pc`. */
  lemma {:induction false} UntilIsLeadingRow(policy: Policy, prog: seq<Instr>, s: Context, pc: u64)
    requires Table(policy, prog, s).Ok? && s.location <= pc
    ensures ExecUntil(policy, prog, s, pc).Ok?
    ensures var rows, end := Table(policy, prog, s).value, ExecUntil(policy, prog, s, pc).value;
            var n := Leading(rows, pc);
            n > 0 && rows[n - 1].cfa == end.cfa && rows[n - 1].rules == end.rules
  {
    if prog == [] {
    } else {
      var s' := Apply(policy, prog[0], s).value;
      var rest := Table(policy, prog[1..], s').value;
      FirstRow(policy, prog[1..], s');
      if s'.location <= pc {
        UntilIsLeadingRow(policy, prog[1..], s', pc);
      } else {
        assert Leading(rest, pc) == 0;
      }
      if Moves(prog[0]) {
        var rows := [RowOf(s)] + rest;
        assert rows[1..] == rest;
        assert Leading(rows, pc) == 1 + Leading(rest, pc);
      }
    }
  }

  lemma {:induction false} RowAtIsLast(rows: seq<Row>, k: nat, pc: u64)
    requires LastAtOrBelow(rows, k, pc)
    ensures RowAt(rows, pc) == Some(rows[k])
    decreases |rows|
  {
    var last := |rows| - 1;
    if k < last {
      assert LastAtOrBelow(rows[..last], k, pc);
      RowAtIsLast(rows[..last], k, pc);
    }
  }

  lemma {:induction false} LeadingIsLast(rows: seq<Row>, pc: u64)
    requires NonDecreasing(rows) && Leading(rows, pc) > 0
    ensures LastAtOrBelow(rows, Leading(rows, pc) - 1, pc)
  {
    var n := Leading(rows[1..], pc);
    if n > 0 {
      LeadingIsLast(rows[1..], pc);
      assert forall j :: n < j < |rows| ==> rows[j] == rows[1..][j - 1];
    } else if |rows| > 1 {
      assert rows[1..][0] == rows[1];
    }
  }

  /** The state holds the rules of the table's row for `pc`. */
  predicate HoldsRowAt(rows: seq<Row>, pc: u64, s: Context) {
    var row := RowAt(rows, pc);
    row.Some? && row.value.cfa == s.cfa && row.value.rules == s.rules
  }

  /** Section 6.4.3: for every program whose locations never decrease, the loop leaves exactly the
      rules of the last row that starts at or below `pc`. */
  lemma UntilIsLastRow(policy: Policy, prog: seq<Instr>, s: Context, pc: u64)
    requires Table(policy, prog, s).Ok? && NonDecreasing(Table(policy, prog, s).value)
    requires s.location <= pc
    ensures ExecUntil(policy, prog, s, pc).Ok?
    ensures HoldsRowAt(Table(policy, prog, s).value, pc, ExecUntil(policy, prog, s, pc).value)
  {
    UntilIsLeadingRow(policy, prog, s, pc);
    var rows := Table(policy, prog, s).value;
    LeadingIsLast(rows, pc);
    RowAtIsLast(rows, Leading(rows, pc) - 1, pc);
  }

  /** The condition is needed: when the location goes back, the loop has already stopped. */
  lemma BackwardLocationNeedsTheCondition()
    ensures var prog := [Advance(8), DefCfaOffset(16), SetLocation(0), DefCfaOffset(32)];
            && Table(Emplace, prog, INITIAL).Ok?
            && ExecUntil(Emplace, prog, INITIAL, 4).Ok?
            && !HoldsRowAt(Table(Emplace, prog, INITIAL).value, 4, ExecUntil(Emplace, prog, INITIAL, 4).value)
  {
    var p3 := [DefCfaOffset(32)];
    var p2 := [SetLocation(0)] + p3;
    var p1 := [DefCfaOffset(16)] + p2;
    var prog := [Advance(8)] + p1;
    assert prog == [Advance(8), DefCfaOffset(16), SetLocation(0), DefCfaOffset(32)];
    var s1 := INITIAL.(location := 8);
    var s2 := s1.(cfa := CfaRule(0, 16));
    var s3 := s2.(location := 0);
    var s4 := s3.(cfa := CfaRule(0, 32));
    assert p3[1..] == [] && p2[1..] == p3 && p1[1..] == p2 && prog[1..] == p1;
    assert Table(Emplace, p3, s3) == Ok([RowOf(s4)]);
    assert Table(Emplace, p2, s2) == Ok([RowOf(s2)] + [RowOf(s4)]);
    assert Table(Emplace, p1, s1) == Table(Emplace, p2, s2);
    assert Table(Emplace, prog, INITIAL) == Ok([RowOf(INITIAL)] + ([RowOf(s2)] + [RowOf(s4)]));
    assert ExecUntil(Emplace, p1, s1, 4) == Ok(s1);
  }

  // ----- emplace against overwriting -----

  /** The instruction gives no register another rule than it holds, nor one that the CIE lacks. */
  predicate Compatible(i: Instr, s: Context) {
    match i
    case Define(reg, rule) => reg in s.rules ==> s.rules[reg] == rule
    case Restore(reg) => reg in s.cieRules && (reg in s.rules ==> s.rules[reg] == s.cieRules[reg])
    case _ => true
  }

  /** Every instruction is compatible with the state in which section 6.4.2 runs it. */
  predicate NeverRedefines(prog: seq<Instr>, s: Context) {
    prog == []
    || (Compatible(prog[0], s)
        && (Apply(Overwrite, prog[0], s).Ok? ==> NeverRedefines(prog[1..], Apply(Overwrite, prog[0], s).value)))
  }

  lemma CompatibleExactly(i: Instr, s: Context)
    ensures Apply(Emplace, i, s) == Apply(Overwrite, i, s) <==> Compatible(i, s)
  {
    match i
    case Define(reg, rule) =>
      assert s.rules[reg := rule][reg] == rule;
      if reg in s.rules && s.rules[reg] == rule {
        assert s.rules[reg := rule] == s.rules;
      }
    case Restore(reg) =>
      if reg in s.cieRules {
        var rule := s.cieRules[reg];
        assert s.rules[reg := rule][reg] == rule;
        if reg in s.rules && s.rules[reg] == rule {
          assert s.rules[reg := rule] == s.rules;
        }
      }
    case _ =>
  }

  /** Both interpreters pass through the same states, rule stack included, or fail alike. */
  ghost predicate StepForStep(prog: seq<Instr>, s: Context) {
    forall k :: 0 <= k <= |prog| ==> Exec(Emplace, prog[..k], s) == Exec(Overwrite, prog[..k], s)
  }

  lemma ExecCons(policy: Policy, prog: seq<Instr>, k: nat, s: Context)
    requires k < |prog|
    ensures Exec(policy, prog[..k + 1], s)
         == match Apply(policy, prog[0], s) case Ok(s') => Exec(policy, prog[1..][..k], s') case Err(e) => Err(e)
  {
    assert prog[..k + 1][1..] == prog[1..][..k];
  }

  /** The `emplace` interpreter agrees step for step with section 6.4.2 of DWARF 4 on exactly the
      programs that never give a register that holds a rule a different one. */
  lemma {:induction false} AgreesExactly(prog: seq<Instr>, s: Context)
    ensures StepForStep(prog, s) <==> NeverRedefines(prog, s)
  {
    if prog == [] {
      assert forall k :: 0 <= k <= |prog| ==> prog[..k] == [];
    } else {
      CompatibleExactly(prog[0], s);
      if Compatible(prog[0], s) {
        StepForStepCons(prog, s);
        var a := Apply(Emplace, prog[0], s);
        if a.Ok? {
          AgreesExactly(prog[1..], a.value);
        }
      } else {
        ExecOne(Emplace, prog, s);
        ExecOne(Overwrite, prog, s);
      }
    }
  }

  lemma ExecOne(policy: Policy, prog: seq<Instr>, s: Context)
    requires prog != []
    ensures Exec(policy, prog[..1], s) == Apply(policy, prog[0], s)
  {
    assert prog[..1][1..] == [];
  }

  lemma StepForStepCons(prog: seq<Instr>, s: Context)
    requires prog != [] && Apply(Emplace, prog[0], s) == Apply(Overwrite, prog[0], s)
    ensures StepForStep(prog, s)
       <==> (Apply(Emplace, prog[0], s).Ok? ==> StepForStep(prog[1..], Apply(Emplace, prog[0], s).value))
  {
    var a := Apply(Emplace, prog[0], s);
    if StepForStep(prog, s) && a.Ok? {
      forall k | 0 <= k <= |prog[1..]|
        ensures Exec(Emplace, prog[1..][..k], a.value) == Exec(Overwrite, prog[1..][..k], a.value)
      {
        ExecCons(Emplace, prog, k, s);
        ExecCons(Overwrite, prog, k, s);
      }
    }
    if a.Ok? ==> StepForStep(prog[1..], a.value) {
      forall k | 0 <= k <= |prog|
        ensures Exec(Emplace, prog[..k], s) == Exec(Overwrite, prog[..k], s)
      {
        if k > 0 {
          ExecCons(Emplace, prog, k - 1, s);
          ExecCons(Overwrite, prog, k - 1, s);
        }
      }
    }
  }

  /** The usual epilogue: a saved register is restored though the CIE has no rule for it. The source
      fails where section 6.4.2 goes back to the initial rule. */
  lemma EpilogueFails()
    ensures var prog := [Define(3, AtOffset(-16)), Restore(3)];
            && !NeverRedefines(prog, INITIAL)
            && Exec(Emplace, prog, INITIAL) == Err(MissingRule)
            && Exec(Overwrite, prog, INITIAL) == Ok(INITIAL)
  {
    var prog := [Define(3, AtOffset(-16)), Restore(3)];
    var s := INITIAL.(rules := map[3 := AtOffset(-16)]);
    assert prog[1..] == [Restore(3)] && prog[1..][1..] == [];
    assert INITIAL.rules[3 := AtOffset(-16)] == s.rules;
    assert Apply(Emplace, prog[0], INITIAL) == Apply(Overwrite, prog[0], INITIAL) == Ok(s);
    assert s.rules - {3} == INITIAL.rules;
  }

  /** A second rule for a register: the source keeps the first. */
  lemma SecondRuleIsDropped()
    ensures var s := INITIAL.(cieRules := map[3 := SameValue], rules := map[3 := SameValue]);
            var prog := [Define(3, AtOffset(-16))];
            && !NeverRedefines(prog, s)
            && Exec(Emplace, prog, s) == Ok(s)
            && Exec(Overwrite, prog, s) == Ok(s.(rules := map[3 := AtOffset(-16)]))
  {
    var s := INITIAL.(cieRules := map[3 := SameValue], rules := map[3 := SameValue]);
    var prog := [Define(3, AtOffset(-16))];
    assert prog[1..] == [];
    assert Store(Emplace, s.rules, 3, AtOffset(-16)) == s.rules;
    assert Apply(Emplace, prog[0], s) == Ok(s);
    assert s.rules[3 := AtOffset(-16)] == map[3 := AtOffset(-16)];
  }

  // ----- What the emplace interpreter can never change -----

  /** `small` is part of `big`. */
  predicate Within(small: Rules, big: Rules) {
    forall reg :: reg in small ==> reg in big && big[reg] == small[reg]
  }

  /** The CIE's rules are in force, in the current rules and in every remembered state. */
  predicate KeepsCie(s: Context) {
    Within(s.cieRules, s.rules) && forall k :: 0 <= k < |s.stack| ==> Within(s.cieRules, s.stack[k].0)
  }

  /** Under `emplace` no program of a frame can change a rule that its CIE set. */
  lemma {:induction false} CieRulesAreFinal(prog: seq<Instr>, s: Context)
    requires KeepsCie(s) && Exec(Emplace, prog, s).Ok?
    ensures KeepsCie(Exec(Emplace, prog, s).value) && Exec(Emplace, prog, s).value.cieRules == s.cieRules
  {
    if prog != [] {
      CieRulesAreFinal(prog[1..], Apply(Emplace, prog[0], s).value);
    }
  }

  /** So `DW_CFA_restore` does nothing or fails in every state that a frame's program can reach. */
  lemma RestoreNeverRestores(prog: seq<Instr>, s: Context, reg: nat)
    requires KeepsCie(s) && Exec(Emplace, prog, s).Ok?
    ensures var now := Exec(Emplace, prog, s).value;
            Apply(Emplace, Restore(reg), now) == if reg in s.cieRules then Ok(now) else Err(MissingRule)
  {
    CieRulesAreFinal(prog, s);
  }

  // ----- remember_state and restore_state -----

  /** The depth of the rule stack above its start after a program; None when it would go below. */
  function Depth(prog: seq<Instr>, depth: nat): Option<nat> {
    if prog == [] then Some(depth)
    else if prog[0].Remember? then Depth(prog[1..], depth + 1)
    else if prog[0].RestoreState? then if depth == 0 then None else Depth(prog[1..], depth - 1)
    else Depth(prog[1..], depth)
  }

  predicate Balanced(prog: seq<Instr>) {
    Depth(prog, 0) == Some(0)
  }

  /** A program that stays above its start leaves the stack below as it was. */
  lemma {:induction false} StackBelow(policy: Policy, prog: seq<Instr>, depth: nat, s: Context, base: seq<(Rules, CfaRule)>)
    requires |s.stack| == |base| + depth && s.stack[..|base|] == base
    requires Depth(prog, depth).Some? && Exec(policy, prog, s).Ok?
    ensures var end := Exec(policy, prog, s).value;
            |end.stack| == |base| + Depth(prog, depth).value && end.stack[..|base|] == base
  {
    if prog != [] {
      var s' := Apply(policy, prog[0], s).value;
      var depth' := if prog[0].Remember? then depth + 1 else if prog[0].RestoreState? then depth - 1 else depth;
      assert s'.stack[..|base|] == base;
      StackBelow(policy, prog[1..], depth', s', base);
    }
  }

  /** Whatever a balanced, arbitrarily nested program does between `remember_state` and
      `restore_state`, the register rules, the CFA rule and the rule stack come back. */
  lemma RememberRestore(policy: Policy, body: seq<Instr>, s: Context)
    requires Balanced(body)
    requires Exec(policy, [Remember] + body + [RestoreState], s).Ok?
    ensures var end := Exec(policy, [Remember] + body + [RestoreState], s).value;
            end.rules == s.rules && end.cfa == s.cfa && end.stack == s.stack && end.cieRules == s.cieRules
  {
    var saved := s.stack + [(s.rules, s.cfa)];
    var s1 := s.(stack := saved);
    ExecSplit(policy, [Remember] + body, [RestoreState], s);
    ExecSplit(policy, [Remember], body, s);
    assert Exec(policy, [Remember], s) == Ok(s1) by {
      assert [Remember][1..] == [];
    }
    var s2 := Exec(policy, body, s1).value;
    StackBelow(policy, body, 0, s1, saved);
    assert s2.stack == saved;
    CieUnchanged(policy, body, s1);
    assert [RestoreState][1..] == [];
    assert saved[..|saved| - 1] == s.stack;
  }

  lemma {:induction false} CieUnchanged(policy: Policy, prog: seq<Instr>, s: Context)
    requires Exec(policy, prog, s).Ok?
    ensures Exec(policy, prog, s).value.cieRules == s.cieRules
  {
    if prog != [] {
      CieUnchanged(policy, prog[1..], Apply(policy, prog[0], s).value);
    }
  }

  /** A balanced bracket runs whenever its body does: the closing instruction finds its state. */
  lemma BracketRuns(policy: Policy, body: seq<Instr>, s: Context)
    requires Balanced(body)
    ensures Exec(policy, [Remember] + body + [RestoreState], s).Ok?
       <==> Exec(policy, body, s.(stack := s.stack + [(s.rules, s.cfa)])).Ok?
  {
    var saved := s.stack + [(s.rules, s.cfa)];
    var s1 := s.(stack := saved);
    ExecSplit(policy, [Remember] + body, [RestoreState], s);
    ExecSplit(policy, [Remember], body, s);
    assert [Remember][1..] == [] && [RestoreState][1..] == [];
    if Exec(policy, body, s1).Ok? {
      StackBelow(policy, body, 0, s1, saved);
    }
  }
}
