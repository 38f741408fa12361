/** What the unwound registers hold, said of each kind of rule by itself. */
module UnwoundRegisters {
  import opened Words
  import opened TraceeMemory
  import opened Cfi
  import opened UnwindRules

  const WORDS: nat := 0x1_0000_0000_0000_0000

  /** The register has a value: it is known, not undefined, and of a size that can be read. */
  predicate HasValue(table: Table, regs: Registers, reg: nat) {
    reg in table && table[reg].offset / 2 !in regs.undefined && table[reg].width.Some?
  }

  function ValueOf(table: Table, regs: Registers, reg: nat): seq<byte>
    requires TableFits(table, |regs.user|) && HasValue(table, regs, reg)
  {
    regs.user[table[reg].offset..table[reg].offset + table[reg].width.value]
  }

  /** The CFA is the little-endian value of the rule's register plus its offset. */
  predicate CfaIs(table: Table, old_: Registers, rule: CfaRule, cfa: u64)
    requires TableFits(table, |old_.user|)
  {
    && HasValue(table, old_, rule.reg) && table[rule.reg].isWord
    && cfa == (LittleEndian(ValueOf(table, old_, rule.reg)) + rule.offset) % WORDS
  }

  /** The rule can be applied: it finds its value, and the slot is wide enough for it. */
  predicate CanApply(table: Table, mem: Memory, old_: Registers, cfa: u64, reg: nat, rule: Rule)
    requires TableFits(table, |old_.user|)
  {
    reg in table
    && match rule
       case InRegister(other) => HasValue(table, old_, other) && table[other].width.value <= table[reg].size
       case AtOffset(offset) => ReadMemory(mem, (cfa + offset) % WORDS, 8).Ok? && table[reg].size >= 8
       case ValOffset(_) => table[reg].size >= 8
       case _ => true
  }

  /** Unwinding succeeds if and only if the CFA's register has a 64-bit value and every rule can be applied. */
  lemma SucceedsExactly(table: Table, mem: Memory, rules: Rules, cfaRule: CfaRule, old_: Registers,
                        r: Result<Registers>, updated: Registers, effects: Effects, order: seq<nat>)
    requires TableFits(table, |old_.user|) && Outcome(table, mem, rules, cfaRule, old_, r, updated, effects, order)
    ensures r.Ok? <==> HasValue(table, old_, cfaRule.reg) && table[cfaRule.reg].isWord
                       && forall reg :: reg in rules ==> CanApply(table, mem, old_, updated.cfa, reg, rules[reg])
    ensures HasValue(table, old_, cfaRule.reg) && table[cfaRule.reg].isWord ==> CfaIs(table, old_, cfaRule, updated.cfa)
  {
    CfaExactly(table, old_, cfaRule);
    if CfaOf(table, old_, cfaRule).Ok? {
      RulesExactly(table, mem, rules, old_, updated.cfa, r, effects);
    }
  }

  lemma CfaExactly(table: Table, old_: Registers, rule: CfaRule)
    requires TableFits(table, |old_.user|)
    ensures CfaOf(table, old_, rule).Ok? <==> HasValue(table, old_, rule.reg) && table[rule.reg].isWord
    ensures CfaOf(table, old_, rule).Ok? ==> CfaIs(table, old_, rule, CfaOf(table, old_, rule).value)
  {
  }

  lemma RulesExactly(table: Table, mem: Memory, rules: Rules, old_: Registers, cfa: u64, r: Result<Registers>, effects: Effects)
    requires TableFits(table, |old_.user|)
    requires r.Err? ==> exists reg :: reg in rules && EffectOf(table, mem, old_, cfa, reg, rules[reg]) == Err(r.error)
    requires r.Ok? ==> AreEffects(table, mem, old_, cfa, rules, effects)
    ensures r.Ok? <==> forall reg :: reg in rules ==> CanApply(table, mem, old_, cfa, reg, rules[reg])
  {
    if r.Ok? {
      forall reg | reg in rules
        ensures CanApply(table, mem, old_, cfa, reg, rules[reg])
      {
        assert EffectOf(table, mem, old_, cfa, reg, rules[reg]) == Ok(effects[reg]);
        RuleExactly(table, mem, old_, cfa, reg, rules[reg]);
      }
    } else {
      var reg :| reg in rules && EffectOf(table, mem, old_, cfa, reg, rules[reg]) == Err(r.error);
      RuleExactly(table, mem, old_, cfa, reg, rules[reg]);
    }
  }

  lemma RuleExactly(table: Table, mem: Memory, old_: Registers, cfa: u64, reg: nat, rule: Rule)
    requires TableFits(table, |old_.user|)
    ensures EffectOf(table, mem, old_, cfa, reg, rule).Ok? <==> CanApply(table, mem, old_, cfa, reg, rule)
    ensures var e := EffectOf(table, mem, old_, cfa, reg, rule);
            e.Ok? ==> reg in table && IsEffect(table, mem, old_, cfa, reg, rule, e.value)
  {
    if rule.AtOffset? {
      ReadLength(mem, Wrap64(cfa + rule.offset), 8);
      if Mapped(mem, Wrap64(cfa + rule.offset), 8) {
        EightAreRead(mem, Wrap64(cfa + rule.offset));
      }
    }
  }

  lemma EightAreRead(mem: Memory, address: u64)
    requires Mapped(mem, address, 8)
    ensures ReadMemory(mem, address, 8) == Ok(Bytes(mem, address, 8))
  {
    ReadIsBytes(mem, address, 8);
  }

  /** What a rule writes, by its kind. */
  predicate IsEffect(table: Table, mem: Memory, old_: Registers, cfa: u64, reg: nat, rule: Rule, e: Effect)
    requires TableFits(table, |old_.user|) && reg in table
  {
    match rule
    case Undefined => e == Undefine(table[reg].offset / 2)
    case SameValue => e == Keep
    case InRegister(other) => HasValue(table, old_, other) && e == Write(table[reg].offset, ValueOf(table, old_, other))
    case AtOffset(offset) =>
      && e.Write? && e.offset == table[reg].offset && |e.bytes| == 8
      && (Mapped(mem, (cfa + offset) % WORDS, 8) ==> e.bytes == Bytes(mem, (cfa + offset) % WORDS, 8))
    case ValOffset(offset) => e == Write(table[reg].offset, ToBytes((cfa + offset) % WORDS, 8))
  }

  /** The slot of a ruled register: under `offset` the eight bytes of memory at the CFA plus the offset, when they
      are mapped; under `val_offset` that sum itself; under `register` the old value of the other register; under
      `same_value` and `undefined` the old bytes, or the CFA for rsp. */
  predicate SlotHolds(table: Table, mem: Memory, old_: Registers, cfa: u64, reg: nat, rule: Rule, user: seq<byte>)
    requires TableFits(table, |old_.user|)
  {
    reg in table
    && match rule
       case InRegister(other) => HasValue(table, old_, other) && At(user, table[reg].offset, ValueOf(table, old_, other))
       case AtOffset(offset) =>
         Mapped(mem, (cfa + offset) % WORDS, 8) ==> At(user, table[reg].offset, Bytes(mem, (cfa + offset) % WORDS, 8))
       case ValOffset(offset) => At(user, table[reg].offset, ToBytes((cfa + offset) % WORDS, 8))
       case _ => if reg == RSP then At(user, table[RSP].offset, ToBytes(cfa, 8)) else At(user, table[reg].offset, SlotOf(table, old_, reg))
  }

  function SlotOf(table: Table, regs: Registers, reg: nat): seq<byte>
    requires TableFits(table, |regs.user|) && reg in table
  {
    regs.user[table[reg].offset..table[reg].offset + table[reg].size]
  }

  /** When unwinding succeeds and the ruled registers and rsp lie apart, every ruled register holds what its rule
      says; rsp without a rule holds the CFA, and every other register what it held. */
  lemma UnwoundSlots(table: Table, mem: Memory, rules: Rules, cfaRule: CfaRule, old_: Registers,
                     r: Result<Registers>, updated: Registers, effects: Effects, order: seq<nat>)
    requires TableFits(table, |old_.user|) && Outcome(table, mem, rules, cfaRule, old_, r, updated, effects, order) && r.Ok?
    requires Separate(table, rules.Keys + {RSP})
    ensures forall reg :: reg in rules ==> SlotHolds(table, mem, old_, updated.cfa, reg, rules[reg], r.value.user)
    ensures RSP !in rules ==> At(r.value.user, table[RSP].offset, ToBytes(updated.cfa, 8))
    ensures forall reg :: reg in table && reg !in rules && reg != RSP && Separate(table, rules.Keys + {RSP, reg}) ==>
              At(r.value.user, table[reg].offset, SlotOf(table, old_, reg))
  {
    var cfa := updated.cfa;
    forall reg | reg in rules
      ensures SlotHolds(table, mem, old_, cfa, reg, rules[reg], r.value.user)
    {
      SlotUnwound(table, mem, old_, cfa, rules, effects, order, reg);
    }
    if RSP !in rules {
      StackPointerIsCfa(table, mem, old_, cfa, rules, effects, order);
    }
    forall reg | reg in table && reg !in rules && reg != RSP && Separate(table, rules.Keys + {RSP, reg})
      ensures At(r.value.user, table[reg].offset, SlotOf(table, old_, reg))
    {
      SlotStays(table, mem, old_, cfa, rules, effects, order, reg);
    }
  }

  lemma SlotUnwound(table: Table, mem: Memory, old_: Registers, cfa: u64, rules: Rules, effects: Effects, order: seq<nat>, reg: nat)
    requires TableFits(table, |old_.user|) && AreEffects(table, mem, old_, cfa, rules, effects) && AllInside(effects, |old_.user|)
    requires IsOrder(order, rules.Keys) && Separate(table, rules.Keys + {RSP}) && reg in rules
    ensures SlotHolds(table, mem, old_, cfa, reg, rules[reg], Performed(Base(table, old_, cfa), effects, order).user)
  {
    assert EffectOf(table, mem, old_, cfa, reg, rules[reg]) == Ok(effects[reg]);
    RuleExactly(table, mem, old_, cfa, reg, rules[reg]);
    if effects[reg].Write? {
      SeparateIsConsistent(table, mem, old_, cfa, rules, effects);
      RuledBytes(Base(table, old_, cfa), effects, order, reg);
    } else if reg == RSP {
      StackPointerIsCfa(table, mem, old_, cfa, rules, effects, order);
    } else {
      assert rules.Keys + {RSP} == rules.Keys + {RSP, reg};
      SlotStays(table, mem, old_, cfa, rules, effects, order, reg);
    }
  }

  /** A slot that no rule writes, apart from rsp and from the slots that are written. */
  lemma SlotStays(table: Table, mem: Memory, old_: Registers, cfa: u64, rules: Rules, effects: Effects, order: seq<nat>, reg: nat)
    requires TableFits(table, |old_.user|) && AreEffects(table, mem, old_, cfa, rules, effects) && AllInside(effects, |old_.user|)
    requires IsOrder(order, rules.Keys) && reg in table && reg != RSP && Separate(table, rules.Keys + {RSP, reg})
    requires reg in rules ==> !effects[reg].Write?
    ensures At(Performed(Base(table, old_, cfa), effects, order).user, table[reg].offset, SlotOf(table, old_, reg))
  {
    var base, pos, slot := Base(table, old_, cfa), table[reg].offset, SlotOf(table, old_, reg);
    SeparateIsConsistent(table, mem, old_, cfa, rules, effects);
    forall i: nat | pos <= i < pos + |slot|
      ensures Spared(effects, i)
    {
      NobodyWrites(table, mem, old_, cfa, rules, effects, reg, i);
    }
    BaseSlot(table, old_, cfa, rules.Keys + {RSP, reg}, reg);
    UnruledBytes(base, effects, order, pos, slot);
  }

  lemma NobodyWrites(table: Table, mem: Memory, old_: Registers, cfa: u64, rules: Rules, effects: Effects, reg: nat, i: nat)
    requires TableFits(table, |old_.user|) && AreEffects(table, mem, old_, cfa, rules, effects)
    requires reg in table && Separate(table, rules.Keys + {RSP, reg}) && (reg in rules ==> !effects[reg].Write?)
    requires table[reg].offset <= i < table[reg].offset + table[reg].size
    ensures Spared(effects, i)
  {
    forall other | other in effects
      ensures !WritesAt(effects[other], i)
    {
      if WritesAt(effects[other], i) {
        OwnSlot(table, mem, old_, cfa, rules, effects, other, i);
        OneSlot(table, rules.Keys + {RSP, reg}, other, reg, i);
      }
    }
  }

  lemma BaseSlot(table: Table, old_: Registers, cfa: u64, regs: set<nat>, reg: nat)
    requires TableFits(table, |old_.user|) && Separate(table, regs) && reg in table && reg in regs && RSP in regs && reg != RSP
    ensures At(Base(table, old_, cfa).user, table[reg].offset, SlotOf(table, old_, reg))
  {
    var pos, slot := table[reg].offset, SlotOf(table, old_, reg);
    AtBytewise(Base(table, old_, cfa).user, pos, slot);
  }

  /** Afterwards a register reads as undefined if and only if it did before or shares its first two bytes with one
      that a rule undefines. */
  lemma UndefinedExactly(table: Table, mem: Memory, rules: Rules, cfaRule: CfaRule, old_: Registers,
                         r: Result<Registers>, updated: Registers, effects: Effects, order: seq<nat>, info: RegisterInfo)
    requires TableFits(table, |old_.user|) && Outcome(table, mem, rules, cfaRule, old_, r, updated, effects, order) && r.Ok?
    requires info.width.Some? ==> info.offset + info.width.value <= |old_.user|
    ensures ReadRegister(r.value, info) == Err(UndefinedRegister)
       <==> ReadRegister(old_, info) == Err(UndefinedRegister)
            || exists reg :: reg in rules && rules[reg] == Undefined && table[reg].offset / 2 == info.offset / 2
  {
    var cfa := updated.cfa;
    PerformedUndefined(Base(table, old_, cfa), effects, order);
    forall reg | reg in rules
      ensures reg in table && (effects[reg] == Undefine(info.offset / 2) <==> rules[reg] == Undefined && table[reg].offset / 2 == info.offset / 2)
    {
      assert EffectOf(table, mem, old_, cfa, reg, rules[reg]) == Ok(effects[reg]);
      RuleExactly(table, mem, old_, cfa, reg, rules[reg]);
    }
  }
}
