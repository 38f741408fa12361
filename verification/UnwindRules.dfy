/** Applying the unwind rules to a register file: `execute_unwind_rules`, whose loop runs over an
    unordered map. */
module UnwindRules {
  import opened Words
  import opened TraceeMemory
  import opened Cfi

  /** Where a register lives in the user area, how large its slot is, how wide the value is that reading
      it gives (None for a size the reader rejects), whether that value is a 64-bit integer, and whether
      the register belongs to the floating-point area. */
  datatype RegisterInfo = RegisterInfo(offset: nat, size: nat, width: Option<nat>, isWord: bool, fpr: bool)

  /** The registers that have a DWARF number. */
  type Table = map<nat, RegisterInfo>

  const RSP: nat := 7

  datatype Registers = Registers(user: seq<byte>, undefined: set<nat>, cfa: u64)

  /** Every register lies in a user area of `n` bytes, and rsp is one of them, eight bytes wide. */
  predicate TableFits(table: Table, n: nat) {
    && RSP in table && table[RSP].size == 8 && table[RSP].width == Some(8) && table[RSP].isWord
    && forall reg :: reg in table ==>
         table[reg].offset + table[reg].size <= n && (table[reg].width.Some? ==> table[reg].width.value <= table[reg].size)
  }

  function Lookup(table: Table, reg: nat): Result<RegisterInfo> {
    if reg in table then Ok(table[reg]) else Err(NotFound)
  }

  /** `registers::read`: the bytes of the value. */
  function ReadRegister(regs: Registers, info: RegisterInfo): Result<seq<byte>>
    requires info.width.Some? ==> info.offset + info.width.value <= |regs.user|
  {
    if info.offset / 2 in regs.undefined then Err(UndefinedRegister)
    else if info.width.None? then Err(InvalidSize)
    else Ok(regs.user[info.offset..info.offset + info.width.value])
  }

  function Overwrite(user: seq<byte>, offset: nat, bytes: seq<byte>): (r: seq<byte>)
    requires offset + |bytes| <= |user|
    ensures |r| == |user|
    ensures forall i :: 0 <= i < |user| ==> r[i] == if offset <= i < offset + |bytes| then bytes[i - offset] else user[i]
  {
    user[..offset] + bytes + user[offset + |bytes|..]
  }

  // ----- One rule -----

  /** What a rule does to the unwound registers. */
  datatype Effect = Keep | Undefine(key: nat) | Write(offset: nat, bytes: seq<byte>)

  /** A value wider than the register's slot makes the source terminate. */
  function Into(info: RegisterInfo, bytes: seq<byte>): Result<Effect> {
    if |bytes| > info.size then Err(SizeMismatch) else Ok(Write(info.offset, bytes))
  }

  /** Every rule reads only the old registers, the CFA and memory. */
  function EffectOf(table: Table, mem: Memory, old_: Registers, cfa: u64, reg: nat, rule: Rule): Result<Effect>
    requires TableFits(table, |old_.user|)
  {
    var info :- Lookup(table, reg);
    match rule
    case Undefined => Ok(Undefine(info.offset / 2))
    case SameValue => Ok(Keep)
    case InRegister(other) =>
      var source :- Lookup(table, other);
      var bytes :- ReadRegister(old_, source);
      Into(info, bytes)
    case AtOffset(offset) =>
      var bytes :- ReadMemory(mem, Wrap64(cfa + offset), 8);
      Into(info, bytes)
    case ValOffset(offset) => Into(info, ToBytes(Wrap64(cfa + offset), 8))
  }

  function CfaOf(table: Table, old_: Registers, rule: CfaRule): Result<u64>
    requires TableFits(table, |old_.user|)
  {
    var info :- Lookup(table, rule.reg);
    var bytes :- ReadRegister(old_, info);
    if info.isWord then Ok(Wrap64(LittleEndian(bytes) + rule.offset)) else Err(SizeMismatch)
  }

  predicate Inside(e: Effect, n: nat) {
    e.Write? ==> e.offset + |e.bytes| <= n
  }

  function Perform(regs: Registers, e: Effect): (r: Registers)
    requires Inside(e, |regs.user|)
    ensures |r.user| == |regs.user|
  {
    match e
    case Keep => regs
    case Undefine(key) => regs.(undefined := regs.undefined + {key})
    case Write(offset, bytes) => regs.(user := Overwrite(regs.user, offset, bytes))
  }

  // ----- All rules, in some order -----

  type Effects = map<nat, Effect>

  predicate AllInside(effects: Effects, n: nat) {
    forall reg :: reg in effects ==> Inside(effects[reg], n)
  }

  /** The effects in the order given. */
  function Performed(base: Registers, effects: Effects, order: seq<nat>): (r: Registers)
    requires AllInside(effects, |base.user|) && forall reg :: reg in order ==> reg in effects
    ensures |r.user| == |base.user|
  {
    if order == [] then base
    else
      var last := |order| - 1;
      Perform(Performed(base, effects, order[..last]), effects[order[last]])
  }

  /** Every register once: an order in which an unordered map may be walked. */
  ghost predicate IsOrder(order: seq<nat>, regs: set<nat>) {
    && (forall reg :: reg in regs <==> reg in order)
    && (forall i, j :: 0 <= i < j < |order| ==> order[i] != order[j])
  }

  /** The registers before the loop: the old ones with rsp set to the CFA. */
  function Base(table: Table, old_: Registers, cfa: u64): (r: Registers)
    requires TableFits(table, |old_.user|)
    ensures |r.user| == |old_.user|
  {
    old_.(user := Overwrite(old_.user, table[RSP].offset, ToBytes(cfa, 8)))
  }

  /** The effects of a rule set, when every rule can be applied. */
  ghost predicate AreEffects(table: Table, mem: Memory, old_: Registers, cfa: u64, rules: Rules, effects: Effects)
    requires TableFits(table, |old_.user|)
  {
    effects.Keys == rules.Keys
    && forall reg :: reg in rules ==> EffectOf(table, mem, old_, cfa, reg, rules[reg]) == Ok(effects[reg])
  }

  lemma EffectInside(table: Table, mem: Memory, old_: Registers, cfa: u64, reg: nat, rule: Rule)
    requires TableFits(table, |old_.user|)
    ensures EffectOf(table, mem, old_, cfa, reg, rule).Ok? ==> Inside(EffectOf(table, mem, old_, cfa, reg, rule).value, |old_.user|)
  {
  }

  /** `execute_unwind_rules`: it fails when the CFA or any rule cannot be evaluated, and otherwise
      performs the effects of all rules in the order in which it happens to walk the map. The old
      registers get the CFA. Each write also reaches the main thread's registers, `tracee`, although
      `commit` is false. */
  method Execute(table: Table, mem: Memory, rules: Rules, cfaRule: CfaRule, old_: Registers, tracee: seq<byte>)
    returns (r: Result<Registers>, updated: Registers, pushed: seq<byte>, ghost effects: Effects, ghost order: seq<nat>)
    requires TableFits(table, |old_.user|) && PushesFit(table, |old_.user|) && |tracee| == |old_.user|
    ensures Outcome(table, mem, rules, cfaRule, old_, r, updated, effects, order)
    ensures if CfaOf(table, old_, cfaRule).Err? then pushed == tracee
            else effects.Keys <= table.Keys && AllInside(effects, |old_.user|) && IsOrder(order, effects.Keys)
                 && pushed == Pushed(table, Base(table, old_, updated.cfa), tracee, effects, order)
  {
    effects, order, updated, pushed := map[], [], old_, tracee;
    var cfa :- CfaOf(table, old_, cfaRule);
    updated := old_.(cfa := cfa);
    var unwound := Base(table, old_, cfa);
    pushed := Send(table[RSP], unwound, tracee);
    var todo := rules.Keys;
    while todo != {}
      invariant todo <= rules.Keys && |unwound.user| == |old_.user| == |pushed|
      invariant effects.Keys == rules.Keys - todo && AllInside(effects, |old_.user|) && effects.Keys <= table.Keys
      invariant forall reg :: reg in effects ==> EffectOf(table, mem, old_, cfa, reg, rules[reg]) == Ok(effects[reg])
      invariant IsOrder(order, effects.Keys)
      invariant unwound == Performed(Base(table, old_, cfa), effects, order)
      invariant pushed == Pushed(table, Base(table, old_, cfa), tracee, effects, order)
      decreases todo
    {
      var reg := Pick(todo);
      EffectInside(table, mem, old_, cfa, reg, rules[reg]);
      var effect :- EffectOf(table, mem, old_, cfa, reg, rules[reg]);
      OneMore(Base(table, old_, cfa), effects, order, reg, effect);
      OneMorePush(table, Base(table, old_, cfa), tracee, effects, order, reg, effect);
      effects := effects[reg := effect];
      order := order + [reg];
      unwound := Perform(unwound, effect);
      if effect.Write? {
        pushed := Send(table[reg], unwound, pushed);
      }
      todo := todo - {reg};
    }
    r := Ok(unwound);
  }

  /** What executing the rules of a context comes to, apart from the tracee. */
  ghost predicate Outcome(table: Table, mem: Memory, rules: Rules, cfaRule: CfaRule, old_: Registers,
                          r: Result<Registers>, updated: Registers, effects: Effects, order: seq<nat>)
    requires TableFits(table, |old_.user|)
  {
    var cfa := CfaOf(table, old_, cfaRule);
    && (cfa.Err? ==> r == Err(cfa.error) && updated == old_)
    && (cfa.Ok? ==> updated == old_.(cfa := cfa.value))
    && (cfa.Ok? && r.Err? ==>
          exists reg :: reg in rules && EffectOf(table, mem, old_, cfa.value, reg, rules[reg]) == Err(r.error))
    && (r.Ok? ==>
          && cfa.Ok?
          && AreEffects(table, mem, old_, updated.cfa, rules, effects) && AllInside(effects, |old_.user|)
          && IsOrder(order, rules.Keys)
          && r.value == Performed(Base(table, old_, updated.cfa), effects, order))
  }

  lemma OneMore(base: Registers, effects: Effects, order: seq<nat>, reg: nat, e: Effect)
    requires AllInside(effects, |base.user|) && Inside(e, |base.user|) && IsOrder(order, effects.Keys) && reg !in effects
    ensures IsOrder(order + [reg], effects[reg := e].Keys)
    ensures Performed(base, effects[reg := e], order + [reg]) == Perform(Performed(base, effects, order), e)
  {
    SameEffects(base, effects, effects[reg := e], order);
    assert (order + [reg])[..|order|] == order;
  }

  lemma {:induction false} SameEffects(base: Registers, a: Effects, b: Effects, order: seq<nat>)
    requires AllInside(a, |base.user|) && AllInside(b, |base.user|)
    requires forall reg :: reg in order ==> reg in a && reg in b && a[reg] == b[reg]
    ensures Performed(base, a, order) == Performed(base, b, order)
    decreases |order|
  {
    if order != [] {
      SameEffects(base, a, b, order[..|order| - 1]);
    }
  }

  // ----- When the order does not matter -----

  predicate WritesAt(e: Effect, i: nat) {
    e.Write? && e.offset <= i < e.offset + |e.bytes|
  }

  /** No two rules write different bytes to one place. */
  ghost predicate Consistent(effects: Effects) {
    forall a, b, i: nat :: a in effects && b in effects && WritesAt(effects[a], i) && WritesAt(effects[b], i) ==>
      effects[a].bytes[i - effects[a].offset] == effects[b].bytes[i - effects[b].offset]
  }

  /** The slots of these registers lie apart: so it is for the general registers, not for st0 and mm0. */
  ghost predicate Separate(table: Table, regs: set<nat>) {
    forall a, b :: a in regs && b in regs && a != b && a in table && b in table ==>
      table[a].offset + table[a].size <= table[b].offset || table[b].offset + table[b].size <= table[a].offset
  }

  /** A rule writes only inside the slot of its own register. */
  lemma OwnSlot(table: Table, mem: Memory, old_: Registers, cfa: u64, rules: Rules, effects: Effects, reg: nat, i: nat)
    requires TableFits(table, |old_.user|) && AreEffects(table, mem, old_, cfa, rules, effects)
    requires reg in effects && WritesAt(effects[reg], i)
    ensures reg in table && effects[reg].offset == table[reg].offset <= i < table[reg].offset + table[reg].size
  {
    assert EffectOf(table, mem, old_, cfa, reg, rules[reg]) == Ok(effects[reg]);
  }

  lemma SeparateIsConsistent(table: Table, mem: Memory, old_: Registers, cfa: u64, rules: Rules, effects: Effects)
    requires TableFits(table, |old_.user|) && AreEffects(table, mem, old_, cfa, rules, effects)
    requires Separate(table, rules.Keys)
    ensures Consistent(effects)
  {
    forall a, b, i: nat | a in effects && b in effects && WritesAt(effects[a], i) && WritesAt(effects[b], i)
      ensures effects[a].bytes[i - effects[a].offset] == effects[b].bytes[i - effects[b].offset]
    {
      OwnSlot(table, mem, old_, cfa, rules, effects, a, i);
      OwnSlot(table, mem, old_, cfa, rules, effects, b, i);
      OneSlot(table, rules.Keys, a, b, i);
    }
  }

  lemma OneSlot(table: Table, regs: set<nat>, a: nat, b: nat, i: nat)
    requires Separate(table, regs) && a in regs && b in regs && a in table && b in table
    requires table[a].offset <= i < table[a].offset + table[a].size && table[b].offset <= i < table[b].offset + table[b].size
    ensures a == b
  {
  }

  /** A byte that some rule of the order writes holds that rule's byte; any other is untouched. */
  lemma {:induction false} PerformedByte(base: Registers, effects: Effects, order: seq<nat>, i: nat)
    requires AllInside(effects, |base.user|) && (forall reg :: reg in order ==> reg in effects)
    requires Consistent(effects) && i < |base.user|
    ensures forall reg :: reg in order && WritesAt(effects[reg], i) ==>
              Performed(base, effects, order).user[i] == effects[reg].bytes[i - effects[reg].offset]
    ensures (forall reg :: reg in order ==> !WritesAt(effects[reg], i)) ==> Performed(base, effects, order).user[i] == base.user[i]
    decreases |order|
  {
    if order != [] {
      var last := |order| - 1;
      PerformedByte(base, effects, order[..last], i);
      assert order == order[..last] + [order[last]];
    }
  }

  lemma {:induction false} PerformedUndefined(base: Registers, effects: Effects, order: seq<nat>)
    requires AllInside(effects, |base.user|) && (forall reg :: reg in order ==> reg in effects)
    ensures Performed(base, effects, order).cfa == base.cfa
    ensures forall k :: k in Performed(base, effects, order).undefined
              <==> k in base.undefined || exists reg :: reg in order && effects[reg] == Undefine(k)
    decreases |order|
  {
    if order != [] {
      var last := |order| - 1;
      PerformedUndefined(base, effects, order[..last]);
      assert order == order[..last] + [order[last]];
    }
  }

  lemma SameEitherWay(base: Registers, effects: Effects, a: seq<nat>, b: seq<nat>)
    requires AllInside(effects, |base.user|) && Consistent(effects)
    requires IsOrder(a, effects.Keys) && IsOrder(b, effects.Keys)
    ensures Performed(base, effects, a) == Performed(base, effects, b)
  {
    var x, y := Performed(base, effects, a), Performed(base, effects, b);
    forall i | 0 <= i < |base.user|
      ensures x.user[i] == y.user[i]
    {
      PerformedByte(base, effects, a, i);
      PerformedByte(base, effects, b, i);
      if reg :| reg in effects && WritesAt(effects[reg], i) {
        assert reg in a && reg in b;
      } else {
        assert forall reg :: reg in a ==> !WritesAt(effects[reg], i);
        assert forall reg :: reg in b ==> !WritesAt(effects[reg], i);
      }
    }
    assert x.user == y.user;
    PerformedUndefined(base, effects, a);
    PerformedUndefined(base, effects, b);
    assert x.undefined == y.undefined;
  }

  lemma {:induction false} SomeOrder(regs: set<nat>) returns (order: seq<nat>)
    ensures IsOrder(order, regs)
    decreases regs
  {
    if regs == {} {
      order := [];
    } else {
      HasElement(regs);
      var reg :| reg in regs;
      var rest := SomeOrder(regs - {reg});
      order := rest + [reg];
    }
  }

  /** An order that ends with this register: the last word on its bytes is its own. */
  lemma LastWord(base: Registers, effects: Effects, reg: nat, i: nat) returns (order: seq<nat>)
    requires AllInside(effects, |base.user|) && reg in effects && i < |base.user| && WritesAt(effects[reg], i)
    ensures IsOrder(order, effects.Keys)
    ensures Performed(base, effects, order).user[i] == effects[reg].bytes[i - effects[reg].offset]
  {
    var rest := SomeOrder(effects.Keys - {reg});
    order := rest + [reg];
    assert order[..|rest|] == rest;
  }

  /** The unwound registers do not depend on the order in which the rule map is walked if and only if no
      two rules write different bytes to one place. */
  lemma OrderDoesNotMatterExactly(base: Registers, effects: Effects)
    requires AllInside(effects, |base.user|)
    ensures (forall a, b :: IsOrder(a, effects.Keys) && IsOrder(b, effects.Keys) ==>
               Performed(base, effects, a) == Performed(base, effects, b))
            <==> Consistent(effects)
  {
    if Consistent(effects) {
      forall a, b | IsOrder(a, effects.Keys) && IsOrder(b, effects.Keys)
        ensures Performed(base, effects, a) == Performed(base, effects, b)
      {
        SameEitherWay(base, effects, a, b);
      }
    } else {
      var x, y, i: nat :| x in effects && y in effects && WritesAt(effects[x], i) && WritesAt(effects[y], i)
        && effects[x].bytes[i - effects[x].offset] != effects[y].bytes[i - effects[y].offset];
      assert Inside(effects[x], |base.user|);
      var a := LastWord(base, effects, x, i);
      var b := LastWord(base, effects, y, i);
      assert Performed(base, effects, a) != Performed(base, effects, b);
    }
  }

  /** Two walks over the same rules give the same registers when no two ruled registers share storage. */
  lemma SeparateRegistersIgnoreTheOrder(table: Table, mem: Memory, old_: Registers, cfa: u64, rules: Rules,
                                        x: Effects, y: Effects, a: seq<nat>, b: seq<nat>)
    requires TableFits(table, |old_.user|) && Separate(table, rules.Keys)
    requires AreEffects(table, mem, old_, cfa, rules, x) && AllInside(x, |old_.user|) && IsOrder(a, rules.Keys)
    requires AreEffects(table, mem, old_, cfa, rules, y) && AllInside(y, |old_.user|) && IsOrder(b, rules.Keys)
    ensures Performed(Base(table, old_, cfa), x, a) == Performed(Base(table, old_, cfa), y, b)
  {
    assert x == y by {
      forall reg | reg in rules ensures x[reg] == y[reg] {
        assert Ok(x[reg]) == EffectOf(table, mem, old_, cfa, reg, rules[reg]) == Ok(y[reg]);
      }
    }
    SeparateIsConsistent(table, mem, old_, cfa, rules, x);
    SameEitherWay(Base(table, old_, cfa), x, a, b);
  }

  /** rsp, and st0 and mm0, which share their storage. */
  const SHARED: Table := map[
    RSP := RegisterInfo(152, 8, Some(8), true, false),
    33 := RegisterInfo(256, 16, Some(16), false, true),
    41 := RegisterInfo(256, 8, Some(8), false, true)]

  /** The rules `val_offset(0)` for st0 and `val_offset(1)` for mm0, whatever the registers, the CFA and
      memory: walked in one order they leave the CFA in the shared bytes, in the other one more than it. */
  lemma SharedStorageDependsOnTheOrder(mem: Memory, old_: Registers, cfa: u64)
    requires |old_.user| >= 272 && TableFits(SHARED, |old_.user|)
    ensures var rules: Rules := map[33 := ValOffset(0), 41 := ValOffset(1)];
            var effects: Effects := map[33 := Write(256, ToBytes(cfa, 8)), 41 := Write(256, ToBytes(Wrap64(cfa + 1), 8))];
            && AreEffects(SHARED, mem, old_, cfa, rules, effects) && AllInside(effects, |old_.user|)
            && IsOrder([33, 41], rules.Keys) && IsOrder([41, 33], rules.Keys)
            && Performed(Base(SHARED, old_, cfa), effects, [33, 41]).user[256] == (cfa + 1) % 0x100
            && Performed(Base(SHARED, old_, cfa), effects, [41, 33]).user[256] == cfa % 0x100 != (cfa + 1) % 0x100
  {
    var x, y := ToBytes(cfa, 8), ToBytes(Wrap64(cfa + 1), 8);
    var effects: Effects := map[33 := Write(256, x), 41 := Write(256, y)];
    var base := Base(SHARED, old_, cfa);
    LowByteOfNext(cfa);
    assert x[0] == cfa % 0x100 && y[0] == (cfa + 1) % 0x100;
    TwoInOrder(base, effects, 33, 41);
    TwoInOrder(base, effects, 41, 33);
  }

  lemma LowByteOfNext(cfa: u64)
    ensures Wrap64(cfa + 1) % 0x100 == (cfa + 1) % 0x100 != cfa % 0x100
  {
  }

  lemma TwoInOrder(base: Registers, effects: Effects, a: nat, b: nat)
    requires AllInside(effects, |base.user|) && a in effects && b in effects
    ensures Performed(base, effects, [a, b]) == Perform(Perform(base, effects[a]), effects[b])
  {
    var order := [a, b];
    assert order[..1] == [a] && [a][..0] == [];
    assert Performed(base, effects, [a]) == Perform(base, effects[a]);
  }

  /** What the unwound registers hold when the slots of rsp and of the ruled registers lie apart: the slot
      of a register whose rule gives a value holds that value, whatever rsp was set to before; and a byte
      that no rule writes holds the CFA inside the slot of rsp, also under `same_value`, and its old value
      elsewhere. */
  lemma UnwoundByte(table: Table, mem: Memory, old_: Registers, cfa: u64, rules: Rules, effects: Effects, order: seq<nat>, i: nat)
    requires TableFits(table, |old_.user|) && AreEffects(table, mem, old_, cfa, rules, effects)
    requires AllInside(effects, |old_.user|) && Separate(table, rules.Keys + {RSP}) && IsOrder(order, rules.Keys)
    requires i < |old_.user|
    ensures var sp, user := table[RSP].offset, Performed(Base(table, old_, cfa), effects, order).user;
            && (forall reg :: reg in effects && WritesAt(effects[reg], i) ==> user[i] == effects[reg].bytes[i - effects[reg].offset])
            && ((forall reg :: reg in effects ==> !WritesAt(effects[reg], i)) ==>
                  user[i] == if sp <= i < sp + 8 then ToBytes(cfa, 8)[i - sp] else old_.user[i])
  {
    SeparateIsConsistent(table, mem, old_, cfa, rules, effects);
    PerformedByte(Base(table, old_, cfa), effects, order, i);
  }

  /** An explicit rule for rsp overrides the CFA that rsp was set to. */
  lemma StackPointerRule(table: Table, mem: Memory, old_: Registers, cfa: u64, rules: Rules, effects: Effects, order: seq<nat>,
                         bytes: seq<byte>)
    requires TableFits(table, |old_.user|) && AreEffects(table, mem, old_, cfa, rules, effects)
    requires AllInside(effects, |old_.user|) && Separate(table, rules.Keys + {RSP}) && IsOrder(order, rules.Keys)
    requires RSP in effects && |bytes| == 8 && effects[RSP] == Write(table[RSP].offset, bytes)
    ensures At(Performed(Base(table, old_, cfa), effects, order).user, table[RSP].offset, bytes)
  {
    SeparateIsConsistent(table, mem, old_, cfa, rules, effects);
    RuledBytes(Base(table, old_, cfa), effects, order, RSP);
  }

  lemma RuledBytes(base: Registers, effects: Effects, order: seq<nat>, reg: nat)
    requires AllInside(effects, |base.user|) && Consistent(effects) && IsOrder(order, effects.Keys)
    requires reg in effects && effects[reg].Write?
    ensures At(Performed(base, effects, order).user, effects[reg].offset, effects[reg].bytes)
  {
    var user, e := Performed(base, effects, order).user, effects[reg];
    assert Inside(e, |base.user|);
    forall i | 0 <= i < |e.bytes|
      ensures user[e.offset + i] == e.bytes[i]
    {
      assert WritesAt(e, e.offset + i);
      PerformedByte(base, effects, order, e.offset + i);
    }
    AtBytewise(user, e.offset, e.bytes);
  }

  /** With no such rule, also under `same_value`, rsp is the CFA and not its old value. */
  lemma StackPointerIsCfa(table: Table, mem: Memory, old_: Registers, cfa: u64, rules: Rules, effects: Effects, order: seq<nat>)
    requires TableFits(table, |old_.user|) && AreEffects(table, mem, old_, cfa, rules, effects)
    requires AllInside(effects, |old_.user|) && Separate(table, rules.Keys + {RSP}) && IsOrder(order, rules.Keys)
    requires RSP in effects ==> !effects[RSP].Write?
    ensures At(Performed(Base(table, old_, cfa), effects, order).user, table[RSP].offset, ToBytes(cfa, 8))
  {
    var sp, base := table[RSP].offset, Base(table, old_, cfa);
    SeparateIsConsistent(table, mem, old_, cfa, rules, effects);
    forall i: nat | sp <= i < sp + 8
      ensures Spared(effects, i)
    {
      OthersKeepOff(table, mem, old_, cfa, rules, effects, i);
    }
    BaseHoldsCfa(table, old_, cfa);
    UnruledBytes(base, effects, order, sp, ToBytes(cfa, 8));
  }

  lemma BaseHoldsCfa(table: Table, old_: Registers, cfa: u64)
    requires TableFits(table, |old_.user|)
    ensures At(Base(table, old_, cfa).user, table[RSP].offset, ToBytes(cfa, 8))
  {
    AtBytewise(Base(table, old_, cfa).user, table[RSP].offset, ToBytes(cfa, 8));
  }

  /** No rule writes the byte. */
  ghost predicate Spared(effects: Effects, i: nat) {
    forall reg :: reg in effects ==> !WritesAt(effects[reg], i)
  }

  lemma UnruledBytes(base: Registers, effects: Effects, order: seq<nat>, pos: nat, bytes: seq<byte>)
    requires AllInside(effects, |base.user|) && Consistent(effects) && IsOrder(order, effects.Keys) && At(base.user, pos, bytes)
    requires forall i: nat :: pos <= i < pos + |bytes| ==> Spared(effects, i)
    ensures At(Performed(base, effects, order).user, pos, bytes)
  {
    forall i: nat | pos <= i < pos + |bytes|
      ensures Performed(base, effects, order).user[i] == base.user[i]
    {
      assert Spared(effects, i);
      PerformedByte(base, effects, order, i);
    }
    SameBytes(base.user, Performed(base, effects, order).user, pos, bytes);
  }

  lemma AtBytewise(data: seq<byte>, pos: nat, bs: seq<byte>)
    requires pos + |bs| <= |data| && forall i :: 0 <= i < |bs| ==> data[pos + i] == bs[i]
    ensures At(data, pos, bs)
  {
    assert data[pos..pos + |bs|] == bs;
  }

  lemma SameBytes(a: seq<byte>, b: seq<byte>, pos: nat, bs: seq<byte>)
    requires |a| == |b| && At(a, pos, bs) && forall i :: pos <= i < pos + |bs| ==> b[i] == a[i]
    ensures At(b, pos, bs)
  {
    assert b[pos..pos + |bs|] == a[pos..pos + |bs|];
  }

  lemma OthersKeepOff(table: Table, mem: Memory, old_: Registers, cfa: u64, rules: Rules, effects: Effects, i: nat)
    requires TableFits(table, |old_.user|) && AreEffects(table, mem, old_, cfa, rules, effects)
    requires Separate(table, rules.Keys + {RSP}) && table[RSP].offset <= i < table[RSP].offset + 8
    ensures forall reg :: reg in effects && reg != RSP ==> !WritesAt(effects[reg], i)
  {
    forall reg | reg in effects && reg != RSP
      ensures !WritesAt(effects[reg], i)
    {
      if WritesAt(effects[reg], i) {
        OwnSlot(table, mem, old_, cfa, rules, effects, reg, i);
      }
    }
  }

  // ----- What reaches the tracee -----

  /** The floating-point area of the user area. */
  const I387: nat := 224
  const I387_SIZE: nat := 512

  /** The part of the user area that a write of the register sends to the tracee: all floating-point
      registers, or the aligned word of another one. */
  function From(info: RegisterInfo): nat {
    if info.fpr then I387 else info.offset / 8 * 8
  }

  function To(info: RegisterInfo): nat {
    if info.fpr then I387 + I387_SIZE else info.offset / 8 * 8 + 8
  }

  /** The part sent holds the register. */
  predicate PushesFit(table: Table, n: nat) {
    forall reg :: reg in table ==>
      From(table[reg]) <= table[reg].offset && table[reg].offset + table[reg].size <= To(table[reg]) <= n
  }

  function Send(info: RegisterInfo, regs: Registers, tracee: seq<byte>): (r: seq<byte>)
    requires From(info) <= To(info) <= |tracee| == |regs.user|
    ensures |r| == |tracee|
    ensures forall i :: 0 <= i < |tracee| ==> r[i] == if From(info) <= i < To(info) then regs.user[i] else tracee[i]
  {
    Overwrite(tracee, From(info), regs.user[From(info)..To(info)])
  }

  /** The tracee's registers after the effects in the order given. */
  function Pushed(table: Table, base: Registers, tracee: seq<byte>, effects: Effects, order: seq<nat>): (r: seq<byte>)
    requires AllInside(effects, |base.user|) && forall reg :: reg in order ==> reg in effects
    requires effects.Keys <= table.Keys && RSP in table && PushesFit(table, |base.user|) && |tracee| == |base.user|
    ensures |r| == |tracee|
  {
    if order == [] then Send(table[RSP], base, tracee)
    else
      var last := |order| - 1;
      var before := Pushed(table, base, tracee, effects, order[..last]);
      if effects[order[last]].Write? then Send(table[order[last]], Performed(base, effects, order), before) else before
  }

  lemma OneMorePush(table: Table, base: Registers, tracee: seq<byte>, effects: Effects, order: seq<nat>, reg: nat, e: Effect)
    requires AllInside(effects, |base.user|) && Inside(e, |base.user|) && IsOrder(order, effects.Keys) && reg !in effects
    requires effects.Keys <= table.Keys && reg in table && RSP in table && PushesFit(table, |base.user|) && |tracee| == |base.user|
    ensures IsOrder(order + [reg], effects[reg := e].Keys)
    ensures var before := Pushed(table, base, tracee, effects, order);
            Pushed(table, base, tracee, effects[reg := e], order + [reg])
            == if e.Write? then Send(table[reg], Performed(base, effects[reg := e], order + [reg]), before) else before
  {
    OneMore(base, effects, order, reg, e);
    SamePushes(table, base, tracee, effects, effects[reg := e], order);
    assert (order + [reg])[..|order|] == order;
  }

  lemma {:induction false} SamePushes(table: Table, base: Registers, tracee: seq<byte>, a: Effects, b: Effects, order: seq<nat>)
    requires AllInside(a, |base.user|) && AllInside(b, |base.user|) && a.Keys <= table.Keys && b.Keys <= table.Keys
    requires RSP in table && PushesFit(table, |base.user|) && |tracee| == |base.user|
    requires forall reg :: reg in order ==> reg in a && reg in b && a[reg] == b[reg]
    ensures Pushed(table, base, tracee, a, order) == Pushed(table, base, tracee, b, order)
    decreases |order|
  {
    SameEffects(base, a, b, order);
    if order != [] {
      SamePushes(table, base, tracee, a, b, order[..|order| - 1]);
    }
  }

  /** Byte `i` lies in what a write of rsp, or of a register whose rule gives a value, sends. */
  ghost predicate Sent(table: Table, effects: Effects, order: seq<nat>, i: nat)
    requires effects.Keys <= table.Keys && RSP in table && forall reg :: reg in order ==> reg in effects
  {
    From(table[RSP]) <= i < To(table[RSP])
    || exists reg :: reg in order && effects[reg].Write? && From(table[reg]) <= i < To(table[reg])
  }

  /** Each effect writes inside the slot of its own register. */
  predicate InSlots(table: Table, effects: Effects)
    requires effects.Keys <= table.Keys
  {
    forall reg :: reg in effects && effects[reg].Write? ==>
      effects[reg].offset == table[reg].offset && |effects[reg].bytes| <= table[reg].size
  }

  /** Exactly what unwinding changes in the tracee: the word of rsp, the words of the registers whose rules
      give values, and all floating-point registers when one of them is among these, become what the unwound
      registers hold, as if the caller were running; nothing else changes. */
  lemma {:induction false} PushedExactly(table: Table, base: Registers, tracee: seq<byte>, effects: Effects, order: seq<nat>, i: nat)
    requires AllInside(effects, |base.user|) && (forall reg :: reg in order ==> reg in effects)
    requires effects.Keys <= table.Keys && RSP in table && PushesFit(table, |base.user|) && |tracee| == |base.user|
    requires InSlots(table, effects) && i < |tracee|
    ensures Pushed(table, base, tracee, effects, order)[i]
         == if Sent(table, effects, order, i) then Performed(base, effects, order).user[i] else tracee[i]
    decreases |order|
  {
    if order != [] {
      var last := |order| - 1;
      PushedExactly(table, base, tracee, effects, order[..last], i);
      assert order == order[..last] + [order[last]];
    }
  }

  lemma EffectsInSlots(table: Table, mem: Memory, old_: Registers, cfa: u64, rules: Rules, effects: Effects)
    requires TableFits(table, |old_.user|) && AreEffects(table, mem, old_, cfa, rules, effects)
    ensures effects.Keys <= table.Keys && InSlots(table, effects)
  {
    forall reg | reg in effects
      ensures reg in table
      ensures effects[reg].Write? ==> effects[reg].offset == table[reg].offset && |effects[reg].bytes| <= table[reg].size
    {
      assert EffectOf(table, mem, old_, cfa, reg, rules[reg]) == Ok(effects[reg]);
    }
  }

  /** The word of rsp is sent as the unwound registers hold it. */
  lemma StackPointerSent(table: Table, base: Registers, tracee: seq<byte>, effects: Effects, order: seq<nat>, bytes: seq<byte>)
    requires AllInside(effects, |base.user|) && (forall reg :: reg in order ==> reg in effects)
    requires effects.Keys <= table.Keys && RSP in table && PushesFit(table, |base.user|) && |tracee| == |base.user|
    requires InSlots(table, effects) && |bytes| <= table[RSP].size
    requires At(Performed(base, effects, order).user, table[RSP].offset, bytes)
    ensures At(Pushed(table, base, tracee, effects, order), table[RSP].offset, bytes)
  {
    var sp, user, sent := table[RSP].offset, Performed(base, effects, order).user, Pushed(table, base, tracee, effects, order);
    forall i | sp <= i < sp + |bytes|
      ensures sent[i] == user[i]
    {
      WordIsSent(table, base, tracee, effects, order, i);
    }
    SameBytes(user, sent, sp, bytes);
  }

  lemma WordIsSent(table: Table, base: Registers, tracee: seq<byte>, effects: Effects, order: seq<nat>, i: nat)
    requires AllInside(effects, |base.user|) && (forall reg :: reg in order ==> reg in effects)
    requires effects.Keys <= table.Keys && RSP in table && PushesFit(table, |base.user|) && |tracee| == |base.user|
    requires InSlots(table, effects) && table[RSP].offset <= i < table[RSP].offset + table[RSP].size
    ensures Pushed(table, base, tracee, effects, order)[i] == Performed(base, effects, order).user[i]
  {
    PushedExactly(table, base, tracee, effects, order, i);
  }

  /** Unwinding one frame, with no rule for rsp, moves the tracee's own stack pointer to the CFA. */
  lemma TraceeStackPointerMoves(table: Table, mem: Memory, old_: Registers, tracee: seq<byte>, cfa: u64, rules: Rules, effects: Effects, order: seq<nat>)
    requires TableFits(table, |old_.user|) && AreEffects(table, mem, old_, cfa, rules, effects)
    requires PushesFit(table, |old_.user|) && |tracee| == |old_.user|
    requires AllInside(effects, |old_.user|) && Separate(table, rules.Keys + {RSP}) && IsOrder(order, rules.Keys)
    requires RSP in effects ==> !effects[RSP].Write?
    ensures effects.Keys <= table.Keys
    ensures At(Pushed(table, Base(table, old_, cfa), tracee, effects, order), table[RSP].offset, ToBytes(cfa, 8))
  {
    EffectsInSlots(table, mem, old_, cfa, rules, effects);
    StackPointerIsCfa(table, mem, old_, cfa, rules, effects, order);
    StackPointerSent(table, Base(table, old_, cfa), tracee, effects, order, ToBytes(cfa, 8));
  }

  /** What is sent, by position in the user area: the eight-byte word of rsp and of each other register written, or bytes
      224 to 736 for a floating-point one. */
  lemma SentExactly(table: Table, effects: Effects, order: seq<nat>, i: nat)
    requires effects.Keys <= table.Keys && RSP in table && forall reg :: reg in order ==> reg in effects
    ensures Sent(table, effects, order, i)
       <==> IsSentWith(table[RSP], i) || exists reg :: reg in order && effects[reg].Write? && IsSentWith(table[reg], i)
  {
  }

  predicate IsSentWith(info: RegisterInfo, i: nat) {
    if info.fpr then 224 <= i < 736 else i / 8 == info.offset / 8
  }
}
