/** The call-frame interpreter (section 6.4 of DWARF 4) as the debugger runs it: instruction by
    instruction over a byte cursor, storing rules with `emplace`, stopping at the first location
    beyond the pc. */
module Cfi {
  import opened Words
  import opened Cursors
  import opened EhFrame

  datatype Rule =
    | Undefined
    | SameValue
    | AtOffset(offset: int)
    | ValOffset(offset: int)
    | InRegister(reg: nat)

  type Rules = map<nat, Rule>

  datatype CfaRule = CfaRule(reg: nat, offset: int)

  datatype Context = Context(location: u64, cfa: CfaRule, cieRules: Rules, rules: Rules, stack: seq<(Rules, CfaRule)>)

  const INITIAL := Context(0, CfaRule(0, 0), map[], map[], [])

  /** What the instructions of one CIE depend on besides their bytes. */
  datatype Env = Env(codeAlign: u64, dataAlign: int, pointerEncoding: byte, bases: Bases)

  // ----- Instructions -----

  /** The instructions of section 6.4.2; the source decodes all but `DefCfaRegister`. */
  datatype Instr =
    | Advance(delta: u64)
    | SetLocation(location: u64)
    | DefCfa(reg: nat, offset: int)
    | DefCfaOffset(offset: int)
    | DefCfaRegister(reg: nat)
    | Define(reg: nat, rule: Rule)
    | Restore(reg: nat)
    | Remember
    | RestoreState
    | Expression
    | Ignored

  /** Registers are stored in 32 bits. */
  function Reg(v: u64): nat {
    v % TWO_32
  }

  /** A 64-bit product stored as a signed offset. */
  function Factored(env: Env, v: int): int {
    Signed64(Wrap64(v * env.dataAlign))
  }

  function Scaled(env: Env, v: nat): u64 {
    Wrap64(v * env.codeAlign)
  }

  /** The instruction at `pos`. An extended opcode without a case in the source, among them
      `DW_CFA_def_cfa_register` (0x0d), does nothing and leaves its operands to be run as opcodes. */
  function DecodeAt(env: Env, data: seq<byte>, pos: nat): (r: Result<Read<Instr>>)
    ensures r.Ok? ==> pos < r.value.next
  {
    if pos >= |data| then Err(OutOfData)
    else
      var low := data[pos] % 64;
      match data[pos] / 64
      case 1 => Ok(Read(Advance(Scaled(env, low)), pos + 1))
      case 2 =>
        var offset :- UlebAt(data, pos + 1);
        Ok(Read(Define(low, AtOffset(Factored(env, offset.value))), offset.next))
      case 3 => Ok(Read(Restore(low), pos + 1))
      case _ => DecodeExtended(env, data, pos + 1, low)
  }

  function DecodeExtended(env: Env, data: seq<byte>, pos: nat, op: nat): (r: Result<Read<Instr>>)
    ensures r.Ok? ==> pos <= r.value.next
  {
    if op <= 0x04 then DecodeLocation(env, data, pos, op)
    else if op in {0x0c, 0x0e, 0x0f, 0x12, 0x13} then DecodeCfa(env, data, pos, op)
    else if op in {0x0a, 0x0b} then Ok(Read(if op == 0x0a then Remember else RestoreState, pos))
    else if op in {0x05, 0x06, 0x07, 0x08, 0x09, 0x10, 0x11, 0x14, 0x15, 0x16} then DecodeRule(env, data, pos, op)
    else Ok(Read(Ignored, pos))
  }

  function DecodeLocation(env: Env, data: seq<byte>, pos: nat, op: nat): (r: Result<Read<Instr>>)
    ensures r.Ok? ==> pos <= r.value.next
  {
    match op
    case 0x01 =>
      var loc :- PointerAt(data, pos, env.pointerEncoding, env.bases);
      Ok(Read(SetLocation(loc.value), loc.next))
    case 0x02 => Advanced(env, IntAt(data, pos, 1))
    case 0x03 => Advanced(env, IntAt(data, pos, 2))
    case 0x04 => Advanced(env, IntAt(data, pos, 4))
    case _ => Ok(Read(Ignored, pos))
  }

  function Advanced(env: Env, delta: Result<Read<nat>>): Result<Read<Instr>> {
    var d :- delta;
    Ok(Read(Advance(Scaled(env, d.value)), d.next))
  }

  function DecodeCfa(env: Env, data: seq<byte>, pos: nat, op: nat): (r: Result<Read<Instr>>)
    ensures r.Ok? ==> pos <= r.value.next
  {
    match op
    case 0x0c =>
      var reg :- UlebAt(data, pos);
      var offset :- UlebAt(data, reg.next);
      Ok(Read(DefCfa(Reg(reg.value), Signed64(offset.value)), offset.next))
    case 0x12 =>
      var reg :- UlebAt(data, pos);
      var offset :- SlebAt(data, reg.next);
      Ok(Read(DefCfa(Reg(reg.value), Factored(env, offset.value)), offset.next))
    case 0x0e =>
      var offset :- UlebAt(data, pos);
      Ok(Read(DefCfaOffset(Signed64(offset.value)), offset.next))
    case 0x13 =>
      var offset :- SlebAt(data, pos);
      Ok(Read(DefCfaOffset(Factored(env, offset.value)), offset.next))
    case _ => Ok(Read(Expression, pos))
  }

  function DecodeRule(env: Env, data: seq<byte>, pos: nat, op: nat): (r: Result<Read<Instr>>)
    ensures r.Ok? ==> pos <= r.value.next
  {
    if op == 0x10 || op == 0x16 then Ok(Read(Expression, pos))
    else
      var reg :- UlebAt(data, pos);
      match op
      case 0x06 => Ok(Read(Restore(Reg(reg.value)), reg.next))
      case 0x07 => Ok(Read(Define(Reg(reg.value), Undefined), reg.next))
      case 0x08 => Ok(Read(Define(Reg(reg.value), SameValue), reg.next))
      case 0x09 =>
        var other :- UlebAt(data, reg.next);
        Ok(Read(Define(Reg(reg.value), InRegister(Reg(other.value))), other.next))
      case 0x05 =>
        var offset :- UlebAt(data, reg.next);
        Ok(Read(Define(Reg(reg.value), AtOffset(Factored(env, offset.value))), offset.next))
      case 0x11 =>
        var offset :- SlebAt(data, reg.next);
        Ok(Read(Define(Reg(reg.value), AtOffset(Factored(env, offset.value))), offset.next))
      case 0x14 =>
        var offset :- UlebAt(data, reg.next);
        Ok(Read(Define(Reg(reg.value), ValOffset(Factored(env, offset.value))), offset.next))
      case _ =>
        var offset :- SlebAt(data, reg.next);
        Ok(Read(Define(Reg(reg.value), ValOffset(Factored(env, offset.value))), offset.next))
  }

  // ----- Execution -----

  /** How a rule is stored: as the source does, or as section 6.4.2 of DWARF 4 says. */
  datatype Policy = Emplace | Overwrite

  function Store(policy: Policy, rules: Rules, reg: nat, rule: Rule): Rules {
    if policy.Emplace? && reg in rules then rules else rules[reg := rule]
  }

  function Apply(policy: Policy, i: Instr, s: Context): Result<Context> {
    match i
    case Advance(delta) => Ok(s.(location := Wrap64(s.location + delta)))
    case SetLocation(location) => Ok(s.(location := location))
    case DefCfa(reg, offset) => Ok(s.(cfa := CfaRule(reg, offset)))
    case DefCfaOffset(offset) => Ok(s.(cfa := CfaRule(s.cfa.reg, offset)))
    case DefCfaRegister(reg) => Ok(s.(cfa := CfaRule(reg, s.cfa.offset)))
    case Define(reg, rule) => Ok(s.(rules := Store(policy, s.rules, reg, rule)))
    case Restore(reg) =>
      if reg in s.cieRules then Ok(s.(rules := Store(policy, s.rules, reg, s.cieRules[reg])))
      else if policy.Emplace? then Err(MissingRule)
      else Ok(s.(rules := s.rules - {reg}))
    case Remember => Ok(s.(stack := s.stack + [(s.rules, s.cfa)]))
    case RestoreState =>
      if s.stack == [] then Err(EmptyRuleStack)
      else
        var top := s.stack[|s.stack| - 1];
        Ok(s.(rules := top.0, cfa := top.1, stack := s.stack[..|s.stack| - 1]))
    case Expression => Err(ExpressionRule)
    case Ignored => Ok(s)
  }

  function StepAt(env: Env, data: seq<byte>, pos: nat, s: Context): Result<Read<Context>> {
    var i :- DecodeAt(env, data, pos);
    var s' :- Apply(Emplace, i.value, s);
    Ok(Read(s', i.next))
  }

  /** The bytes from `pos` on, run while the location has not passed `limit`. */
  function RunBytes(env: Env, data: seq<byte>, pos: nat, s: Context, limit: Option<u64>): Result<Context>
    decreases |data| - pos
  {
    if pos >= |data| || (limit.Some? && s.location > limit.value) then Ok(s)
    else
      var i :- DecodeAt(env, data, pos);
      var s' :- Apply(Emplace, i.value, s);
      RunBytes(env, data, i.next, s', limit)
  }

  /** A frame description and its common information, as far as unwinding uses them. The two programs lie at
      different places of the file: `env` is for the frame's own, and `cieOrigin` the file offset of the other. */
  datatype Frame = Frame(env: Env, cieOrigin: u64, cieProgram: seq<byte>, program: seq<byte>, start: u64, range: u64) {
    function CieEnv(): Env {
      env.(bases := env.bases.(origin := cieOrigin))
    }
  }

  /** The context after the CIE's program: its rules become the ones that `restore` goes back to. */
  function Prepared(f: Frame): Result<Context> {
    var s :- RunBytes(f.CieEnv(), f.cieProgram, 0, INITIAL, None);
    Ok(s.(cieRules := s.rules, location := f.start))
  }

  function ContextAt(f: Frame, pc: u64): Result<Context> {
    if pc < f.start || pc >= Wrap64(f.start + f.range) then Err(NotFound)
    else
      var s :- Prepared(f);
      RunBytes(f.env, f.program, 0, s, Some(pc))
  }

  // ----- The interpreter itself -----

  class UnwindContext {
    var location: u64
    var cfa: CfaRule
    var cieRules: Rules
    var rules: Rules
    var stack: seq<(Rules, CfaRule)>

    ghost function View(): Context
      reads this
    {
      Context(location, cfa, cieRules, rules, stack)
    }

    constructor ()
      ensures View() == INITIAL
    {
      location, cfa, cieRules, rules, stack := 0, CfaRule(0, 0), map[], map[], [];
    }

    /** `std::unordered_map::emplace`: a register that holds a rule keeps it. */
    method EmplaceRule(reg: nat, rule: Rule)
      modifies this`rules
      ensures rules == Store(Emplace, old(rules), reg, rule)
    {
      if reg !in rules {
        rules := rules[reg := rule];
      }
    }

    method RestoreRule(reg: nat) returns (r: Result<()>)
      modifies this`rules
      ensures Executed(Apply(Emplace, Restore(reg), old(View())), r)
    {
      if reg !in cieRules {
        return Err(MissingRule);
      }
      EmplaceRule(reg, cieRules[reg]);
      r := Ok(());
    }

    ghost predicate Executed(spec: Result<Context>, r: Result<()>)
      reads this
    {
      match spec
      case Ok(s) => r == Ok(()) && View() == s
      case Err(e) => r == Err(e)
    }

    /** The outcome of running the instruction decoded as `i`. */
    ghost predicate Ran(i: Result<Read<Instr>>, s: Context, pos: nat, r: Result<()>)
      reads this
    {
      match i
      case Err(e) => r == Err(e)
      case Ok(Read(instr, next)) => Executed(Apply(Emplace, instr, s), r) && (r.Ok? ==> pos == next)
    }

    method ExecuteLocation(env: Env, cur: Cursor, op: nat) returns (r: Result<()>)
      modifies this`location, cur`pos
      ensures Ran(DecodeLocation(env, cur.data, old(cur.pos), op), old(View()), cur.pos, r)
    {
      match op {
        case 0x01 =>
          var loc :- ParsePointer(cur, env.pointerEncoding, env.bases);
          location := loc;
        case 0x02 =>
          var d :- cur.FixedInt(1);
          location := Wrap64(location + Scaled(env, d));
        case 0x03 =>
          var d :- cur.FixedInt(2);
          location := Wrap64(location + Scaled(env, d));
        case 0x04 =>
          var d :- cur.FixedInt(4);
          location := Wrap64(location + Scaled(env, d));
        case _ =>
      }
      r := Ok(());
    }

    method ExecuteCfa(env: Env, cur: Cursor, op: nat) returns (r: Result<()>)
      modifies this`cfa, cur`pos
      ensures Ran(DecodeCfa(env, cur.data, old(cur.pos), op), old(View()), cur.pos, r)
    {
      match op {
        case 0x0c =>
          var reg :- cur.Uleb128();
          var offset :- cur.Uleb128();
          cfa := CfaRule(Reg(reg), Signed64(offset));
        case 0x12 =>
          var reg :- cur.Uleb128();
          var offset :- cur.Sleb128();
          cfa := CfaRule(Reg(reg), Factored(env, offset));
        case 0x0e =>
          var offset :- cur.Uleb128();
          cfa := cfa.(offset := Signed64(offset));
        case 0x13 =>
          var offset :- cur.Sleb128();
          cfa := cfa.(offset := Factored(env, offset));
        case _ =>
          return Err(ExpressionRule);
      }
      r := Ok(());
    }

    method ExecuteRule(env: Env, cur: Cursor, op: nat) returns (r: Result<()>)
      modifies this`rules, cur`pos
      ensures Ran(DecodeRule(env, cur.data, old(cur.pos), op), old(View()), cur.pos, r)
    {
      if op == 0x10 || op == 0x16 {
        return Err(ExpressionRule);
      }
      var reg :- cur.Uleb128();
      match op {
        case 0x06 =>
          r := RestoreRule(Reg(reg));
          return;
        case 0x07 =>
          EmplaceRule(Reg(reg), Undefined);
        case 0x08 =>
          EmplaceRule(Reg(reg), SameValue);
        case 0x09 =>
          var other :- cur.Uleb128();
          EmplaceRule(Reg(reg), InRegister(Reg(other)));
        case 0x05 =>
          var offset :- cur.Uleb128();
          EmplaceRule(Reg(reg), AtOffset(Factored(env, offset)));
        case 0x11 =>
          var offset :- cur.Sleb128();
          EmplaceRule(Reg(reg), AtOffset(Factored(env, offset)));
        case 0x14 =>
          var offset :- cur.Uleb128();
          EmplaceRule(Reg(reg), ValOffset(Factored(env, offset)));
        case _ =>
          var offset :- cur.Sleb128();
          EmplaceRule(Reg(reg), ValOffset(Factored(env, offset)));
      }
      r := Ok(());
    }

    method ExecuteExtended(env: Env, cur: Cursor, op: nat) returns (r: Result<()>)
      modifies this, cur`pos
      ensures Ran(DecodeExtended(env, cur.data, old(cur.pos), op), old(View()), cur.pos, r)
    {
      if op <= 0x04 {
        r := ExecuteLocation(env, cur, op);
      } else if op in {0x0c, 0x0e, 0x0f, 0x12, 0x13} {
        r := ExecuteCfa(env, cur, op);
      } else if op == 0x0a {
        stack := stack + [(rules, cfa)];
        r := Ok(());
      } else if op == 0x0b {
        if stack == [] {
          return Err(EmptyRuleStack);
        }
        rules, cfa := stack[|stack| - 1].0, stack[|stack| - 1].1;
        stack := stack[..|stack| - 1];
        r := Ok(());
      } else if op in {0x05, 0x06, 0x07, 0x08, 0x09, 0x10, 0x11, 0x14, 0x15, 0x16} {
        r := ExecuteRule(env, cur, op);
      } else {
        r := Ok(());
      }
    }

    /** `execute_cfi_instruction`. */
    method Execute(env: Env, cur: Cursor) returns (r: Result<()>)
      modifies this, cur`pos
      ensures Ran(DecodeAt(env, cur.data, old(cur.pos)), old(View()), cur.pos, r)
    {
      var opcode :- cur.U8();
      var low := opcode % 64;
      match opcode / 64 {
        case 1 =>
          location := Wrap64(location + Scaled(env, low));
        case 2 =>
          var offset :- cur.Uleb128();
          EmplaceRule(low, AtOffset(Factored(env, offset)));
        case 3 =>
          r := RestoreRule(low);
          return;
        case _ =>
          r := ExecuteExtended(env, cur, low);
          return;
      }
      r := Ok(());
    }

    /** The loop of `unwind`, with and without the stop at the pc. */
    method Run(env: Env, data: seq<byte>, limit: Option<u64>) returns (r: Result<()>)
      modifies this
      ensures Executed(RunBytes(env, data, 0, old(View()), limit), r)
    {
      var cur := new Cursor(data, 0);
      while !cur.Finished() && (limit.None? || location <= limit.value)
        invariant cur.data == data && fresh(cur)
        invariant RunBytes(env, data, 0, old(View()), limit) == RunBytes(env, data, cur.pos, View(), limit)
        decreases |data| - cur.pos
      {
        var _ :- Execute(env, cur);
      }
      r := Ok(());
    }
  }

  /** `call_frame_information::unwind` up to the application of the rules. */
  method Unwind(f: Frame, pc: u64) returns (r: Result<UnwindContext>)
    ensures match ContextAt(f, pc)
            case Ok(s) => r.Ok? && r.value.View() == s
            case Err(e) => r == Err(e)
  {
    if pc < f.start || pc >= Wrap64(f.start + f.range) {
      return Err(NotFound);
    }
    var ctx := new UnwindContext();
    var _ :- ctx.Run(f.CieEnv(), f.cieProgram, None);
    ctx.cieRules := ctx.rules;
    ctx.location := f.start;
    var _ :- ctx.Run(f.env, f.program, Some(pc));
    r := Ok(ctx);
  }
}
