/** Exactly which instructions of the standard's the debugger's interpreter follows: by opcode, operand and
    context. */
module CfiFollows {
  import opened Words
  import opened Cursors
  import opened Cfi
  import opened CfiTables
  import opened CfiStandard

  // ----- One instruction of the standard's, run by the debugger -----

  /** The debugger's instructions from `pos` on until it reaches `target` or passes it. */
  function Until(env: Env, data: seq<byte>, pos: nat, s: Context, target: nat): Result<Read<Context>>
    decreases target - pos
  {
    if pos >= target then Ok(Read(s, pos))
    else
      var step :- StepAt(env, data, pos, s);
      Until(env, data, step.next, step.value, target)
  }

  /** The state after the standard's instruction at `pos`. */
  function Meant(env: Env, data: seq<byte>, pos: nat, s: Context): (r: Result<Read<Context>>)
    ensures r.Ok? ==> pos < r.value.next
  {
    var i :- StandardAt(env, data, pos);
    var s' :- Apply(Overwrite, i.value, s);
    Ok(Read(s', i.next))
  }

  /** At the end of the standard's instruction the debugger stands in the same place with the same context. */
  predicate Follows(env: Env, data: seq<byte>, pos: nat, s: Context)
    requires Meant(env, data, pos, s).Ok?
  {
    Until(env, data, pos, s, Meant(env, data, pos, s).value.next) == Meant(env, data, pos, s)
  }

  /** Run as instructions, the bytes up to `next` of a LEB128 number change nothing and take no more bytes: a
      leading byte restores a rule that is in force, or is the `offset` of a register that has a rule and takes
      the rest as its operand; a last byte is an opcode without a case, or advances by nothing. */
  predicate Quiet(env: Env, data: seq<byte>, pos: nat, next: nat, s: Context)
    decreases next - pos
  {
    pos < next <= |data|
    && var b := data[pos];
       if pos + 1 == next then b in {0x00, 0x0d} || 0x17 <= b < 0x40 || (0x40 <= b < 0x80 && Scaled(env, b - 0x40) == 0)
       else if b >= 0xc0 then b - 0xc0 in s.cieRules && b - 0xc0 in s.rules && Quiet(env, data, pos + 1, next, s)
       else b >= 0x80 && b - 0x80 in s.rules
  }

  /** By opcode, operand and context: no register is given another rule than it has, an offset that takes
      effect is exact, and a `def_cfa_register` names the register that the CFA has already, by bytes that are
      quiet. */
  predicate Harmless(env: Env, data: seq<byte>, pos: nat, s: Context)
    requires StandardAt(env, data, pos).Ok?
  {
    var op, o, i := data[pos], OperandsAt(env, data, pos + 1, ShapeOf(data[pos])).value, StandardAt(env, data, pos).value;
    match i.value
    case Define(reg, rule) => if reg in s.rules then s.rules[reg] == rule else Exact(env, data, pos + 1, op, o)
    case DefCfaRegister(reg) => s.cfa.reg == reg && Quiet(env, data, pos + 1, i.next, s)
    case Restore(reg) => Compatible(i.value, s)
    case _ => Exact(env, data, pos + 1, op, o)
  }

  /** The same instruction but for its offset or location. */
  predicate Alike(i: Instr, j: Instr) {
    match i
    case Define(reg, _) => j.Define? && j.reg == reg
    case DefCfa(reg, _) => j.DefCfa? && j.reg == reg
    case DefCfaOffset(_) => j.DefCfaOffset?
    case SetLocation(_) => j.SetLocation?
    case _ => i == j
  }

  /** When storing with `emplace` what the debugger reads has the standard's outcome. */
  lemma AppliesExactly(i: Instr, j: Instr, s: Context)
    requires Alike(i, j) && !i.DefCfaRegister? && Apply(Overwrite, i, s).Ok?
    ensures Apply(Emplace, j, s) == Apply(Overwrite, i, s)
       <==> match i
            case Define(reg, rule) => if reg in s.rules then s.rules[reg] == rule else i == j
            case Restore(reg) => Compatible(i, s)
            case _ => i == j
  {
    match i
    case Define(reg, rule) =>
      assert s.rules[reg := rule][reg] == rule;
      if reg in s.rules && s.rules[reg] == rule {
        assert s.rules[reg := rule] == s.rules;
      } else if reg !in s.rules {
        assert s.rules[reg := j.rule][reg] == j.rule;
      }
    case Restore(_) => CompatibleExactly(i, s);
    case _ =>
  }

  lemma OneStep(env: Env, data: seq<byte>, pos: nat, s: Context)
    requires Meant(env, data, pos, s).Ok? && pos < |data|
    requires DecodeAt(env, data, pos).Ok? && DecodeAt(env, data, pos).value.next == Meant(env, data, pos, s).value.next
    ensures Follows(env, data, pos, s)
       <==> Apply(Emplace, DecodeAt(env, data, pos).value.value, s) == Ok(Meant(env, data, pos, s).value.value)
  {
    var next := Meant(env, data, pos, s).value.next;
    var step := StepAt(env, data, pos, s);
    assert step.Ok? ==> Until(env, data, next, step.value.value, next) == Ok(Read(step.value.value, next));
  }

  lemma SetLocExactly(env: Env, data: seq<byte>, pos: nat, s: Context)
    requires Meant(env, data, pos, s).Ok? && pos < |data| && data[pos] == 0x01
    ensures Follows(env, data, pos, s) <==> Harmless(env, data, pos, s)
  {
    LocationExactly(env, data, pos + 1);
    OneStep(env, data, pos, s);
  }

  lemma OrdinaryExactly(env: Env, data: seq<byte>, pos: nat, s: Context)
    requires Meant(env, data, pos, s).Ok? && pos < |data| && data[pos] !in {0x01, 0x0d}
    ensures Follows(env, data, pos, s) <==> Harmless(env, data, pos, s)
  {
    var op, o, i := data[pos], OperandsAt(env, data, pos + 1, ShapeOf(data[pos])).value, StandardAt(env, data, pos).value.value;
    DecodesAsSeen(env, data, pos, o);
    SeenExactly(env, data, pos + 1, op, o);
    OneStep(env, data, pos, s);
    AppliesExactly(i, Seen(env, op, o.a, ReadBack(data, pos + 1, op, o.v)), s);
  }

  // ----- def_cfa_register -----

  /** What running a LEB128 number as instructions can do: it never changes the CFA rule and never drops a
      rule, unless it pops the rule stack or takes bytes beyond the number. */
  predicate Grown(s: Context, r: Read<Context>, next: nat) {
    r.next == next ==> |r.value.stack| < |s.stack| || (r.value.cfa == s.cfa && s.rules.Keys <= r.value.rules.Keys)
  }

  lemma LastByte(env: Env, data: seq<byte>, pos: nat, s: Context)
    requires pos < |data| && data[pos] < 0x80 && StepAt(env, data, pos, s).Ok?
    ensures Grown(s, StepAt(env, data, pos, s).value, pos + 1)
  {
  }

  lemma LastByteExactly(env: Env, data: seq<byte>, pos: nat, s: Context)
    requires pos < |data| && data[pos] < 0x80
    ensures StepAt(env, data, pos, s) == Ok(Read(s, pos + 1)) <==> Quiet(env, data, pos, pos + 1, s)
  {
    if data[pos] >= 0x40 {
      AdvancesByNothing(s.location, Scaled(env, data[pos] - 0x40));
    }
  }

  lemma AdvancesByNothing(location: u64, delta: u64)
    ensures Wrap64(location + delta) == location <==> delta == 0
  {
  }

  lemma {:induction false} LebEndCount(data: seq<byte>, pos: nat, count: nat, fewer: nat)
    requires LebEnd(data, pos, count).Ok? && fewer <= count
    ensures LebEnd(data, pos, fewer) == LebEnd(data, pos, count)
    decreases |data| - pos
  {
    if data[pos] >= 0x80 {
      LebEndCount(data, pos + 1, count + 1, fewer + 1);
    }
  }

  lemma {:induction false} OperandGrows(env: Env, data: seq<byte>, pos: nat, s: Context, count: nat)
    requires LebEnd(data, pos, count).Ok? && Until(env, data, pos, s, LebEnd(data, pos, count).value).Ok?
    ensures Grown(s, Until(env, data, pos, s, LebEnd(data, pos, count).value).value, LebEnd(data, pos, count).value)
    decreases |data| - pos
  {
    var next := LebEnd(data, pos, count).value;
    if data[pos] < 0x80 {
      LastByte(env, data, pos, s);
    } else if data[pos] >= 0xc0 {
      RestoreStep(env, data, pos, s);
      var step := StepAt(env, data, pos, s).value;
      OperandGrows(env, data, pos + 1, step.value, count + 1);
    } else {
      OffsetStep(env, data, pos, s, count);
    }
  }

  /** A leading byte that is a `restore`. */
  lemma RestoreStep(env: Env, data: seq<byte>, pos: nat, s: Context)
    requires pos < |data| && data[pos] >= 0xc0
    ensures var reg := data[pos] - 0xc0;
            StepAt(env, data, pos, s)
            == if reg in s.cieRules then Ok(Read(s.(rules := Store(Emplace, s.rules, reg, s.cieRules[reg])), pos + 1)) else Err(MissingRule)
  {
  }

  /** A leading byte that is an `offset`, with the rest of the number as its operand. */
  lemma OffsetStep(env: Env, data: seq<byte>, pos: nat, s: Context, count: nat)
    requires LebEnd(data, pos, count).Ok? && 0x80 <= data[pos] < 0xc0
    ensures var rule := AtOffset(Factored(env, Wrap64(Groups(data[pos + 1..LebEnd(data, pos, count).value]))));
            StepAt(env, data, pos, s)
            == Ok(Read(s.(rules := Store(Emplace, s.rules, data[pos] - 0x80, rule)), LebEnd(data, pos, count).value))
  {
    LebEndCount(data, pos + 1, count + 1, 0);
  }

  /** Running a LEB128 number as instructions leaves the context as it was, at the end of the number, exactly
      when the number is quiet. */
  lemma {:induction false} QuietExactly(env: Env, data: seq<byte>, pos: nat, s: Context, count: nat)
    requires LebEnd(data, pos, count).Ok?
    ensures var next := LebEnd(data, pos, count).value;
            Until(env, data, pos, s, next) == Ok(Read(s, next)) <==> Quiet(env, data, pos, next, s)
    decreases |data| - pos
  {
    var next := LebEnd(data, pos, count).value;
    if data[pos] < 0x80 {
      LastByteExactly(env, data, pos, s);
      var step := StepAt(env, data, pos, s);
      assert step.Ok? ==> Until(env, data, step.value.next, step.value.value, next) == step;
    } else if data[pos] >= 0xc0 {
      RestoreByte(env, data, pos, s, count);
      if data[pos] - 0xc0 in s.cieRules && data[pos] - 0xc0 in s.rules {
        QuietExactly(env, data, pos + 1, s, count + 1);
      }
    } else {
      OffsetByte(env, data, pos, s, count);
    }
  }

  lemma RestoreByte(env: Env, data: seq<byte>, pos: nat, s: Context, count: nat)
    requires LebEnd(data, pos, count).Ok? && data[pos] >= 0xc0
    ensures var reg, next := data[pos] - 0xc0, LebEnd(data, pos, count).value;
            && (reg in s.cieRules && reg in s.rules ==> Until(env, data, pos, s, next) == Until(env, data, pos + 1, s, next))
            && (!(reg in s.cieRules && reg in s.rules) ==> Until(env, data, pos, s, next) != Ok(Read(s, next)))
  {
    var reg, next := data[pos] - 0xc0, LebEnd(data, pos, count).value;
    RestoreStep(env, data, pos, s);
    if reg in s.cieRules && reg !in s.rules {
      var s' := s.(rules := s.rules[reg := s.cieRules[reg]]);
      var r := Until(env, data, pos + 1, s', next);
      if r.Ok? {
        OperandGrows(env, data, pos + 1, s', count + 1);
        assert reg in s'.rules.Keys;
      }
    }
  }

  lemma OffsetByte(env: Env, data: seq<byte>, pos: nat, s: Context, count: nat)
    requires LebEnd(data, pos, count).Ok? && 0x80 <= data[pos] < 0xc0
    ensures var reg, next := data[pos] - 0x80, LebEnd(data, pos, count).value;
            Until(env, data, pos, s, next) == Ok(Read(s, next)) <==> reg in s.rules
  {
    var reg, next := data[pos] - 0x80, LebEnd(data, pos, count).value;
    OffsetStep(env, data, pos, s, count);
    var s' := StepAt(env, data, pos, s).value.value;
    assert Until(env, data, next, s', next) == Ok(Read(s', next));
    if reg !in s.rules {
      assert reg in s'.rules;
    }
  }

  /** `DW_CFA_def_cfa_register` has no case, and its operand is run as instructions. The debugger is in step
      afterwards if and only if the CFA has that register already and the operand is quiet. */
  lemma DefCfaRegisterExactly(env: Env, data: seq<byte>, pos: nat, s: Context)
    requires Meant(env, data, pos, s).Ok? && pos < |data| && data[pos] == 0x0d
    ensures Follows(env, data, pos, s) <==> Harmless(env, data, pos, s)
  {
    var m := Meant(env, data, pos, s).value;
    assert StepAt(env, data, pos, s) == Ok(Read(s, pos + 1));
    QuietExactly(env, data, pos + 1, s, 0);
    var r := Until(env, data, pos + 1, s, m.next);
    if r == Ok(m) {
      OperandGrows(env, data, pos + 1, s, 0);
    }
  }

  /** Exactly which instructions of the standard's the debugger follows. */
  lemma FollowsExactly(env: Env, data: seq<byte>, pos: nat, s: Context)
    requires Meant(env, data, pos, s).Ok?
    ensures Follows(env, data, pos, s) <==> Harmless(env, data, pos, s)
  {
    if data[pos] == 0x01 {
      SetLocExactly(env, data, pos, s);
    } else if data[pos] == 0x0d {
      DefCfaRegisterExactly(env, data, pos, s);
    } else {
      OrdinaryExactly(env, data, pos, s);
    }
  }
}
