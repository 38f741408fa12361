/** What a written frame means, said of its operations alone: which of them are in force after a prefix, and the
    location, the CFA rule and the register rules that these give. */
module CfiMeaning {
  import opened Words
  import opened Cfi
  import opened CfiTables
  import opened CfiStandard
  import opened CfiFrames
  import opened CfiEncoding

  // ----- Operations in force -----

  /** The operations in force, by position, and those that were at each `remember_state` that is still open. */
  datatype Force = Force(live: set<nat>, saved: seq<set<nat>>)

  /** After the first `k`: `restore_state` (0x0b) puts out of force what has come since the latest open
      `remember_state` (0x0a), and needs one. */
  function ForceAfter(ops: seq<Operation>, k: nat): (r: Option<Force>)
    requires k <= |ops|
    ensures r.Some? ==> forall i :: i in r.value.live ==> i < k
    ensures r.Some? ==> forall d, i :: 0 <= d < |r.value.saved| && i in r.value.saved[d] ==> i < k
  {
    if k == 0 then Some(Force({}, []))
    else
      match ForceAfter(ops, k - 1)
      case None => None
      case Some(f) =>
        if ops[k - 1].op == 0x0a then Some(Force(f.live, f.saved + [f.live]))
        else if ops[k - 1].op != 0x0b then Some(Force(f.live + {k - 1}, f.saved))
        else if f.saved == [] then None
        else Some(Force(f.saved[|f.saved| - 1], f.saved[..|f.saved| - 1]))
  }

  /** The last of the first `k` operations that is in force and sets what is asked for. */
  function LastOf(ops: seq<Operation>, live: set<nat>, sets: Operation -> bool, k: nat): (r: Option<nat>)
    requires k <= |ops|
    ensures r.Some? ==> r.value < k && r.value in live && sets(ops[r.value])
    ensures forall i :: (if r.Some? then r.value < i else 0 <= i) && i < k && i in live ==> !sets(ops[i])
  {
    if k == 0 then None
    else if k - 1 in live && sets(ops[k - 1]) then Some(k - 1)
    else LastOf(ops, live, sets, k - 1)
  }

  // ----- What they set -----

  /** `def_cfa`, `def_cfa_offset`, `def_cfa_sf`, `def_cfa_offset_sf`; the last two are factored. */
  function SetsOffset(): Operation -> bool {
    (o: Operation) => o.op in {0x0c, 0x0e, 0x12, 0x13}
  }

  function WrittenOffset(dataAlign: int, o: Operation): int {
    if o.op in {0x12, 0x13} then o.v * dataAlign else o.v
  }

  /** `def_cfa`, `def_cfa_register`, `def_cfa_sf`. */
  function SetsRegister(): Operation -> bool {
    (o: Operation) => o.op in {0x0c, 0x0d, 0x12}
  }

  /** The register that a register-rule operation is about: in the low bits of `offset` and `restore`, and the
      first operand of the extended ones. */
  function RuledRegister(o: Operation): Option<nat> {
    if 0x80 <= o.op then Some(o.op % 0x40)
    else if o.op in {0x05, 0x06, 0x07, 0x08, 0x09, 0x11, 0x14, 0x15} then Some(o.a)
    else None
  }

  function SetsRule(reg: nat): Operation -> bool {
    (o: Operation) => RuledRegister(o) == Some(reg)
  }

  /** `restore` and `restore_extended`. */
  predicate Restores(o: Operation) {
    o.op >= 0xc0 || o.op == 0x06
  }

  /** `offset` and its extended forms, `undefined`, `same_value`, `register`, `val_offset` and its signed form. */
  function WrittenRule(dataAlign: int, o: Operation): Rule {
    if 0x80 <= o.op < 0xc0 || o.op in {0x05, 0x11} then AtOffset(o.v * dataAlign)
    else if o.op in {0x14, 0x15} then ValOffset(o.v * dataAlign)
    else if o.op == 0x09 then InRegister(if o.v >= 0 then o.v else 0)
    else if o.op == 0x08 then SameValue
    else Undefined
  }

  /** `advance_loc`, by the low bits, and `advance_loc1`, `advance_loc2`, `advance_loc4`. */
  function Delta(o: Operation): nat {
    if 0x40 <= o.op < 0x80 then o.op % 0x40 else if o.op in {0x02, 0x03, 0x04} then o.a else 0
  }

  // ----- What is in force after a prefix -----

  function OffsetAfter(dataAlign: int, ops: seq<Operation>, live: set<nat>, k: nat): int
    requires k <= |ops|
  {
    var i := LastOf(ops, live, SetsOffset(), k);
    if i.None? then 0 else WrittenOffset(dataAlign, ops[i.value])
  }

  function RegisterAfter(ops: seq<Operation>, live: set<nat>, k: nat): nat
    requires k <= |ops|
  {
    var i := LastOf(ops, live, SetsRegister(), k);
    if i.None? then 0 else ops[i.value].a
  }

  /** A register's rule is its last one; a `restore` gives it `initial` again, or no rule in the CIE's own program,
      the first `n` operations. */
  function RuleAfter(dataAlign: int, ops: seq<Operation>, live: set<nat>, k: nat, reg: nat, n: nat, initial: Option<Rule>): Option<Rule>
    requires k <= |ops|
  {
    var i := LastOf(ops, live, SetsRule(reg), k);
    if i.None? then None
    else if !Restores(ops[i.value]) then Some(WrittenRule(dataAlign, ops[i.value]))
    else if i.value < n then None
    else initial
  }

  /** The deltas of operations `from` to `k`. */
  function Moved(ops: seq<Operation>, from: nat, k: nat): nat
    requires from <= k <= |ops|
  {
    if k == from then 0 else Moved(ops, from, k - 1) + Delta(ops[k - 1])
  }

  function LocationAfter(env: Env, start: u64, ops: seq<Operation>, from: nat, k: nat): u64
    requires from <= k <= |ops|
  {
    Wrap64(start + Moved(ops, from, k) * env.codeAlign)
  }

  /** The CFA rule and the register rules are those of the operations `live`. */
  ghost predicate Given(dataAlign: int, ops: seq<Operation>, live: set<nat>, k: nat, n: nat, cie: Rules, cfa: CfaRule, rules: Rules)
    requires k <= |ops|
  {
    && cfa == CfaRule(RegisterAfter(ops, live, k), OffsetAfter(dataAlign, ops, live, k))
    && forall reg :: RuleIn(rules, reg) == RuleAfter(dataAlign, ops, live, k, reg, n, RuleIn(cie, reg))
  }

  function RuleIn(rules: Rules, reg: nat): Option<Rule> {
    if reg in rules then Some(rules[reg]) else None
  }

  // ----- One more operation -----

  lemma {:induction false} NotLive(ops: seq<Operation>, live: set<nat>, more: set<nat>, sets: Operation -> bool, k: nat)
    requires k <= |ops| && forall i :: 0 <= i < k ==> (i in live <==> i in more)
    ensures LastOf(ops, live, sets, k) == LastOf(ops, more, sets, k)
  {
    if k > 0 {
      NotLive(ops, live, more, sets, k - 1);
    }
  }

  /** The same operations are in force, and one more has passed. */
  lemma GivenStill(dataAlign: int, ops: seq<Operation>, live: set<nat>, k: nat, n: nat, cie: Rules, cfa: CfaRule, rules: Rules)
    requires k < |ops| && Given(dataAlign, ops, live, k, n, cie, cfa, rules) && forall i :: i in live ==> i < k
    ensures Given(dataAlign, ops, live, k + 1, n, cie, cfa, rules)
  {
    assert LastOf(ops, live, SetsOffset(), k + 1) == LastOf(ops, live, SetsOffset(), k);
    assert LastOf(ops, live, SetsRegister(), k + 1) == LastOf(ops, live, SetsRegister(), k);
    forall reg
      ensures RuleIn(rules, reg) == RuleAfter(dataAlign, ops, live, k + 1, reg, n, RuleIn(cie, reg))
    {
      assert LastOf(ops, live, SetsRule(reg), k + 1) == LastOf(ops, live, SetsRule(reg), k);
    }
  }

  lemma LastOfMore(ops: seq<Operation>, live: set<nat>, sets: Operation -> bool, k: nat)
    requires k < |ops|
    ensures LastOf(ops, live + {k}, sets, k + 1) == if sets(ops[k]) then Some(k) else LastOf(ops, live, sets, k)
  {
    NotLive(ops, live, live + {k}, sets, k);
  }

  /** What an operation that is no `remember_state` and no `restore_state` makes of a context. */
  ghost predicate IsApplied(env: Env, o: Operation, s: Context, s': Context) {
    && s'.stack == s.stack && s'.cieRules == s.cieRules
    && s'.cfa == CfaRule(if SetsRegister()(o) then o.a else s.cfa.reg,
                         if SetsOffset()(o) then WrittenOffset(env.dataAlign, o) else s.cfa.offset)
    && s'.location == Wrap64(s.location + Delta(o) * env.codeAlign)
    && forall reg :: RuleIn(s'.rules, reg) == RuleOver(env.dataAlign, o, s, reg)
  }

  function RuleOver(dataAlign: int, o: Operation, s: Context, reg: nat): Option<Rule> {
    if !SetsRule(reg)(o) then RuleIn(s.rules, reg)
    else if Restores(o) then RuleIn(s.cieRules, reg)
    else Some(WrittenRule(dataAlign, o))
  }

  lemma OneApplied(env: Env, o: Operation, s: Context)
    requires Writable(o) && o.op != 0x0a && o.op != 0x0b
    ensures var r := Apply(Overwrite, MeaningOf(env, o), s); r.Ok? && IsApplied(env, o, s, r.value)
  {
    if 0x40 <= o.op < 0x80 || o.op in {0x02, 0x03, 0x04} {
      MoveApplied(env, o, s);
    } else if o.op in {0x0c, 0x0d, 0x0e, 0x12, 0x13} {
      CfaApplied(env, o, s);
    } else if RuledRegister(o).Some? {
      RuleApplied(env, o, s);
    } else {
      assert MeaningOf(env, o) == Ignored;
    }
  }

  lemma MoveApplied(env: Env, o: Operation, s: Context)
    requires Writable(o) && (0x40 <= o.op < 0x80 || o.op in {0x02, 0x03, 0x04})
    ensures var r := Apply(Overwrite, MeaningOf(env, o), s); r.Ok? && IsApplied(env, o, s, r.value)
  {
    MoveMeans(env, o);
    SumOfProduct(s.location, Delta(o) * env.codeAlign);
    Unmoved(env, o, s, Wrap64(s.location + Delta(o) * env.codeAlign));
  }

  lemma MoveMeans(env: Env, o: Operation)
    requires Writable(o) && (0x40 <= o.op < 0x80 || o.op in {0x02, 0x03, 0x04})
    ensures MeaningOf(env, o) == Advance(Wrap64(Delta(o) * env.codeAlign))
  {
    LowBits(o.op);
  }

  lemma LowBits(op: byte)
    ensures 0x40 <= op < 0x80 ==> op % 0x40 == op - 0x40
    ensures 0x80 <= op < 0xc0 ==> op % 0x40 == op - 0x80
    ensures 0xc0 <= op ==> op % 0x40 == op - 0xc0
  {
  }

  lemma Unmoved(env: Env, o: Operation, s: Context, location: u64)
    requires (0x40 <= o.op < 0x80 || o.op in {0x02, 0x03, 0x04}) && location == Wrap64(s.location + Delta(o) * env.codeAlign)
    ensures IsApplied(env, o, s, s.(location := location))
  {
  }

  lemma SumOfProduct(location: int, product: int)
    ensures Wrap64(location + Wrap64(product)) == Wrap64(location + product)
  {
  }

  lemma CfaApplied(env: Env, o: Operation, s: Context)
    requires Writable(o) && o.op in {0x0c, 0x0d, 0x0e, 0x12, 0x13}
    ensures var r := Apply(Overwrite, MeaningOf(env, o), s); r.Ok? && IsApplied(env, o, s, r.value)
  {
    assert MeaningOf(env, o) == if o.op in {0x0c, 0x12} then DefCfa(o.a, WrittenOffset(env.dataAlign, o))
                                else if o.op == 0x0d then DefCfaRegister(o.a) else DefCfaOffset(WrittenOffset(env.dataAlign, o));
  }

  lemma RuleApplied(env: Env, o: Operation, s: Context)
    requires Writable(o) && RuledRegister(o).Some?
    ensures var r := Apply(Overwrite, MeaningOf(env, o), s); r.Ok? && IsApplied(env, o, s, r.value)
  {
    var reg := RuledRegister(o).value;
    LowBits(o.op);
    assert MeaningOf(env, o) == if Restores(o) then Restore(reg) else Define(reg, WrittenRule(env.dataAlign, o));
  }

  lemma GivenMore(env: Env, ops: seq<Operation>, live: set<nat>, k: nat, n: nat, s: Context, s': Context)
    requires k < |ops| && Given(env.dataAlign, ops, live, k, n, s.cieRules, s.cfa, s.rules)
    requires IsApplied(env, ops[k], s, s') && (k < n ==> s.cieRules == map[])
    ensures Given(env.dataAlign, ops, live + {k}, k + 1, n, s.cieRules, s'.cfa, s'.rules)
  {
    LastOfMore(ops, live, SetsOffset(), k);
    LastOfMore(ops, live, SetsRegister(), k);
    forall reg
      ensures RuleIn(s'.rules, reg) == RuleAfter(env.dataAlign, ops, live + {k}, k + 1, reg, n, RuleIn(s.cieRules, reg))
    {
      LastOfMore(ops, live, SetsRule(reg), k);
      assert RuleIn(s.rules, reg) == RuleAfter(env.dataAlign, ops, live, k, reg, n, RuleIn(s.cieRules, reg));
    }
  }

  // ----- Programs -----

  /** The context is that of the operations in force, and so is every remembered state. */
  ghost predicate InForce(env: Env, ops: seq<Operation>, k: nat, n: nat, f: Force, s: Context)
    requires k <= |ops|
  {
    && Given(env.dataAlign, ops, f.live, k, n, s.cieRules, s.cfa, s.rules)
    && |s.stack| == |f.saved|
    && forall d :: 0 <= d < |f.saved| ==> Given(env.dataAlign, ops, f.saved[d], k, n, s.cieRules, s.stack[d].1, s.stack[d].0)
  }

  lemma SavedStill(env: Env, ops: seq<Operation>, k: nat, n: nat, f: Force, s: Context)
    requires k < |ops| && ForceAfter(ops, k) == Some(f) && InForce(env, ops, k, n, f, s)
    ensures forall d :: 0 <= d < |f.saved| ==> Given(env.dataAlign, ops, f.saved[d], k + 1, n, s.cieRules, s.stack[d].1, s.stack[d].0)
    ensures Given(env.dataAlign, ops, f.live, k + 1, n, s.cieRules, s.cfa, s.rules)
  {
    forall d | 0 <= d < |f.saved|
      ensures Given(env.dataAlign, ops, f.saved[d], k + 1, n, s.cieRules, s.stack[d].1, s.stack[d].0)
    {
      GivenStill(env.dataAlign, ops, f.saved[d], k, n, s.cieRules, s.stack[d].1, s.stack[d].0);
    }
    GivenStill(env.dataAlign, ops, f.live, k, n, s.cieRules, s.cfa, s.rules);
  }

  /** One operation, run as section 6.4.2 says, is one more in the prefix. */
  lemma StepInForce(env: Env, ops: seq<Operation>, k: nat, n: nat, s: Context)
    requires k < |ops| && AllWritable(ops) && ForceAfter(ops, k).Some? && ForceAfter(ops, k + 1).Some?
    requires InForce(env, ops, k, n, ForceAfter(ops, k).value, s) && (k < n ==> s.cieRules == map[])
    ensures var r := Apply(Overwrite, MeaningOf(env, ops[k]), s);
            && r.Ok? && r.value.cieRules == s.cieRules && r.value.location == Wrap64(s.location + Delta(ops[k]) * env.codeAlign)
            && InForce(env, ops, k + 1, n, ForceAfter(ops, k + 1).value, r.value)
  {
    var f, o := ForceAfter(ops, k).value, ops[k];
    SavedStill(env, ops, k, n, f, s);
    if o.op == 0x0a {
      Remembered(env, ops, k, n, f, s);
    } else if o.op == 0x0b {
      Restored(env, ops, k, n, f, s);
    } else {
      OneApplied(env, o, s);
      GivenMore(env, ops, f.live, k, n, s, Apply(Overwrite, MeaningOf(env, o), s).value);
    }
  }

  lemma Remembered(env: Env, ops: seq<Operation>, k: nat, n: nat, f: Force, s: Context)
    requires k < |ops| && ForceAfter(ops, k) == Some(f) && InForce(env, ops, k, n, f, s) && Writable(ops[k]) && ops[k].op == 0x0a
    ensures var s' := s.(stack := s.stack + [(s.rules, s.cfa)]);
            && Apply(Overwrite, MeaningOf(env, ops[k]), s) == Ok(s') && s.location == Wrap64(s.location + Delta(ops[k]) * env.codeAlign)
            && ForceAfter(ops, k + 1).Some? && InForce(env, ops, k + 1, n, ForceAfter(ops, k + 1).value, s')
  {
    SavedStill(env, ops, k, n, f, s);
    assert MeaningOf(env, ops[k]) == Remember;
  }

  lemma Restored(env: Env, ops: seq<Operation>, k: nat, n: nat, f: Force, s: Context)
    requires k < |ops| && ForceAfter(ops, k) == Some(f) && InForce(env, ops, k, n, f, s) && Writable(ops[k]) && ops[k].op == 0x0b
    requires f.saved != []
    ensures var last := |s.stack| - 1;
            && last >= 0
            && var s' := s.(rules := s.stack[last].0, cfa := s.stack[last].1, stack := s.stack[..last]);
               && Apply(Overwrite, MeaningOf(env, ops[k]), s) == Ok(s') && s.location == Wrap64(s.location + Delta(ops[k]) * env.codeAlign)
               && ForceAfter(ops, k + 1).Some? && InForce(env, ops, k + 1, n, ForceAfter(ops, k + 1).value, s')
  {
    SavedStill(env, ops, k, n, f, s);
    assert MeaningOf(env, ops[k]) == RestoreState;
  }

  lemma {:induction false} ForceBefore(ops: seq<Operation>, j: nat, k: nat)
    requires j <= k <= |ops| && ForceAfter(ops, k).Some?
    ensures ForceAfter(ops, j).Some?
    decreases k
  {
    if j < k {
      ForceBefore(ops, j, k - 1);
    }
  }

  /** What instructions `j` to `k` keep, one after the other, when `prog` starts with instruction `j`. */
  ghost predicate Keeps(prog: seq<Instr>, j: nat, k: nat, holds: (nat, Context) -> bool) {
    && j <= k <= j + |prog|
    && forall i: nat, c :: j <= i < k && holds(i, c) ==>
         Apply(Overwrite, prog[i - j], c).Ok? && holds(i + 1, Apply(Overwrite, prog[i - j], c).value)
  }

  lemma {:induction false} ExecKeeps(prog: seq<Instr>, j: nat, s: Context, holds: (nat, Context) -> bool)
    requires holds(j, s) && Keeps(prog, j, j + |prog|, holds)
    ensures Exec(Overwrite, prog, s).Ok? && holds(j + |prog|, Exec(Overwrite, prog, s).value)
    decreases |prog|
  {
    if prog != [] {
      KeepsLater(prog, j, j + |prog|, holds);
      ExecKeeps(prog[1..], j + 1, Apply(Overwrite, prog[0], s).value, holds);
    }
  }

  lemma KeepsLater(prog: seq<Instr>, j: nat, k: nat, holds: (nat, Context) -> bool)
    requires j < k && Keeps(prog, j, k, holds)
    ensures Keeps(prog[1..], j + 1, k, holds)
  {
    forall i: nat, c | j + 1 <= i < k && holds(i, c)
      ensures Apply(Overwrite, prog[1..][i - (j + 1)], c).Ok? && holds(i + 1, Apply(Overwrite, prog[1..][i - (j + 1)], c).value)
    {
      assert prog[1..][i - (j + 1)] == prog[i - j];
    }
  }

  /** After `k` operations from the start of the CIE's program, or of the frame's, where `cie` has its rules. */
  ghost predicate Reached(env: Env, ops: seq<Operation>, n: nat, cie: Rules, k: nat, s: Context) {
    k <= |ops| && ForceAfter(ops, k).Some? && s.cieRules == cie && InForce(env, ops, k, n, ForceAfter(ops, k).value, s)
  }

  lemma StepReaches(env: Env, ops: seq<Operation>, n: nat, cie: Rules, k: nat, s: Context)
    requires k < |ops| && AllWritable(ops) && ForceAfter(ops, k + 1).Some? && (k < n ==> cie == map[])
    requires Reached(env, ops, n, cie, k, s)
    ensures var r := Apply(Overwrite, MeaningOf(env, ops[k]), s); r.Ok? && Reached(env, ops, n, cie, k + 1, r.value)
    ensures Apply(Overwrite, MeaningOf(env, ops[k]), s).value.location == Wrap64(s.location + Delta(ops[k]) * env.codeAlign)
  {
    StepInForce(env, ops, k, n, s);
  }

  /** A step from `k` to `k + 1` operations, as far as the location and whatever `reached` says are concerned. */
  ghost predicate Steps(env: Env, o: Operation, k: nat, s: Context, reached: (nat, Context) -> bool) {
    var r := Apply(Overwrite, MeaningOf(env, o), s);
    r.Ok? && reached(k + 1, r.value) && r.value.location == Wrap64(s.location + Delta(o) * env.codeAlign)
  }

  /** Every step that the rule stack allows can be taken. */
  ghost predicate AllStep(env: Env, ops: seq<Operation>, from: nat, reached: (nat, Context) -> bool) {
    forall k: nat, s :: from <= k < |ops| && ForceAfter(ops, k + 1).Some? && reached(k, s) ==> Steps(env, ops[k], k, s, reached)
  }

  ghost function ReachedBy(env: Env, ops: seq<Operation>, n: nat, cie: Rules): (nat, Context) -> bool {
    (k: nat, s: Context) => Reached(env, ops, n, cie, k, s)
  }

  lemma ReachedSteps(env: Env, ops: seq<Operation>, from: nat, n: nat, cie: Rules)
    requires AllWritable(ops) && (from < n ==> cie == map[])
    ensures AllStep(env, ops, from, ReachedBy(env, ops, n, cie))
  {
    forall k: nat, s | from <= k < |ops| && ForceAfter(ops, k + 1).Some? && ReachedBy(env, ops, n, cie)(k, s)
      ensures Steps(env, ops[k], k, s, ReachedBy(env, ops, n, cie))
    {
      ReachedStep(env, ops, n, cie, k, s);
    }
  }

  lemma ReachedStep(env: Env, ops: seq<Operation>, n: nat, cie: Rules, k: nat, s: Context)
    requires k < |ops| && AllWritable(ops) && ForceAfter(ops, k + 1).Some? && (k < n ==> cie == map[])
    requires ReachedBy(env, ops, n, cie)(k, s)
    ensures Steps(env, ops[k], k, s, ReachedBy(env, ops, n, cie))
  {
    StepReaches(env, ops, n, cie, k, s);
  }

  lemma EachStepReaches(env: Env, ops: seq<Operation>, j: nat, k: nat, prog: seq<Instr>, reached: (nat, Context) -> bool)
    requires j <= k <= |ops| && AllStep(env, ops, j, reached) && ForceAfter(ops, k).Some?
    requires |prog| == k - j && forall i :: 0 <= i < |prog| ==> prog[i] == MeaningOf(env, ops[j + i])
    ensures Keeps(prog, j, k, reached)
  {
    forall i: nat, c | j <= i < k && reached(i, c)
      ensures Apply(Overwrite, prog[i - j], c).Ok? && reached(i + 1, Apply(Overwrite, prog[i - j], c).value)
    {
      ForceBefore(ops, i + 1, k);
      assert Steps(env, ops[i], i, c, reached) && prog[i - j] == MeaningOf(env, ops[j + (i - j)]);
    }
  }

  /** A whole part of the program. */
  lemma RunsInForce(env: Env, ops: seq<Operation>, j: nat, k: nat, s: Context, prog: seq<Instr>, reached: (nat, Context) -> bool)
    requires j <= k <= |ops| && AllStep(env, ops, j, reached) && ForceAfter(ops, k).Some? && reached(j, s)
    requires |prog| == k - j && forall i :: 0 <= i < |prog| ==> prog[i] == MeaningOf(env, ops[j + i])
    ensures var r := Exec(Overwrite, prog, s); r.Ok? && reached(k, r.value)
  {
    EachStepReaches(env, ops, j, k, prog, reached);
    ExecKeeps(prog, j, s, reached);
  }

  /** The CIE's program has run, and its rules become those that a `restore` gives. */
  lemma CieInForce(env: Env, ops: seq<Operation>, n: nat, start: u64, s: Context, f: Force)
    requires n <= |ops| && ForceAfter(ops, n) == Some(f) && InForce(env, ops, n, n, f, s) && s.cieRules == map[]
    ensures InForce(env, ops, n, n, f, s.(cieRules := s.rules, location := start))
  {
    GivenByCie(env.dataAlign, ops, f.live, n, map[], s.rules, s.cfa, s.rules);
    forall d | 0 <= d < |f.saved|
      ensures Given(env.dataAlign, ops, f.saved[d], n, n, s.rules, s.stack[d].1, s.stack[d].0)
    {
      GivenByCie(env.dataAlign, ops, f.saved[d], n, map[], s.rules, s.stack[d].1, s.stack[d].0);
    }
  }

  lemma GivenByCie(dataAlign: int, ops: seq<Operation>, live: set<nat>, n: nat, a: Rules, b: Rules, cfa: CfaRule, rules: Rules)
    requires n <= |ops| && Given(dataAlign, ops, live, n, n, a, cfa, rules)
    ensures Given(dataAlign, ops, live, n, n, b, cfa, rules)
  {
    forall reg
      ensures RuleIn(rules, reg) == RuleAfter(dataAlign, ops, live, n, reg, n, RuleIn(b, reg))
    {
      assert RuleIn(rules, reg) == RuleAfter(dataAlign, ops, live, n, reg, n, RuleIn(a, reg));
    }
  }

  // ----- The loop that stops early -----

  /** It goes through instructions `j` to `k`, and stops at the end of the program or behind one more, which changes no
      rule. */
  ghost predicate StopsAt(prog: seq<Instr>, j: nat, k: nat, pc: u64, holds: (nat, Context) -> bool) {
    && Keeps(prog, j, k, holds)
    && (forall i: nat, c :: j <= i <= k && holds(i, c) ==> c.location <= pc)
    && (k - j < |prog| ==> forall c :: holds(k, c) ==> Leaves(prog[k - j], c, pc))
  }

  predicate Leaves(i: Instr, c: Context, pc: u64) {
    var r := Apply(Overwrite, i, c);
    r.Ok? && r.value.location > pc && r.value.cfa == c.cfa && r.value.rules == c.rules
  }

  lemma {:induction false} UntilStops(prog: seq<Instr>, j: nat, k: nat, pc: u64, s: Context, holds: (nat, Context) -> bool) returns (at: Context)
    requires holds(j, s) && StopsAt(prog, j, k, pc, holds)
    ensures holds(k, at)
    ensures var r := ExecUntil(Overwrite, prog, s, pc); r.Ok? && r.value.cfa == at.cfa && r.value.rules == at.rules
    decreases k - j
  {
    if j == k {
      at := s;
      if prog != [] {
        StopsBehind(prog, s, pc);
      }
    } else {
      KeepsLater(prog, j, k, holds);
      assert k - j < |prog| ==> prog[1..][k - (j + 1)] == prog[k - j];
      at := UntilStops(prog[1..], j + 1, k, pc, Apply(Overwrite, prog[0], s).value, holds);
    }
  }

  lemma StopsBehind(prog: seq<Instr>, s: Context, pc: u64)
    requires prog != [] && s.location <= pc && Leaves(prog[0], s, pc)
    ensures ExecUntil(Overwrite, prog, s, pc) == Apply(Overwrite, prog[0], s)
  {
    assert ExecUntil(Overwrite, prog[1..], Apply(Overwrite, prog[0], s).value, pc) == Apply(Overwrite, prog[0], s);
  }

  // ----- Locations -----

  lemma LocationStep(env: Env, start: u64, ops: seq<Operation>, from: nat, k: nat)
    requires from <= k < |ops|
    ensures LocationAfter(env, start, ops, from, k + 1) == Wrap64(LocationAfter(env, start, ops, from, k) + Delta(ops[k]) * env.codeAlign)
  {
    var m, d := Moved(ops, from, k), Delta(ops[k]);
    assert (m + d) * env.codeAlign == m * env.codeAlign + d * env.codeAlign;
    SumOfProduct(d * env.codeAlign, start + m * env.codeAlign);
  }

  lemma MovingLeaves(env: Env, o: Operation, c: Context, pc: u64)
    requires Writable(o) && c.location <= pc < Wrap64(c.location + Delta(o) * env.codeAlign)
    ensures Leaves(MeaningOf(env, o), c, pc)
  {
    MoveMeans(env, o);
    SumOfProduct(c.location, Delta(o) * env.codeAlign);
  }

  // ----- The frame -----

  /** `k` operations run for `pc`: up to there no location is beyond it, and the next one is, if there is one. */
  predicate RunsFor(env: Env, start: u64, ops: seq<Operation>, from: nat, k: nat, pc: u64)
    requires from <= |ops|
  {
    && from <= k <= |ops|
    && (forall i :: from <= i <= k ==> LocationAfter(env, start, ops, from, i) <= pc)
    && (k < |ops| ==> LocationAfter(env, start, ops, from, k + 1) > pc)
  }

  /** In a frame's program, the location included. */
  ghost function Located(env: Env, ops: seq<Operation>, n: nat, start: u64, reached: (nat, Context) -> bool): (nat, Context) -> bool
    requires n <= |ops|
  {
    (k: nat, s: Context) => n <= k <= |ops| && reached(k, s) && s.location == LocationAfter(env, start, ops, n, k)
  }

  lemma EachFrameStep(env: Env, ops: seq<Operation>, n: nat, start: u64, k: nat, prog: seq<Instr>, reached: (nat, Context) -> bool)
    requires n <= k <= |ops| && AllStep(env, ops, n, reached) && ForceAfter(ops, k).Some?
    requires |prog| == |ops| - n && forall i :: 0 <= i < |prog| ==> prog[i] == MeaningOf(env, ops[n + i])
    ensures Keeps(prog, n, k, Located(env, ops, n, start, reached))
  {
    var holds := Located(env, ops, n, start, reached);
    forall i: nat, c | n <= i < k && holds(i, c)
      ensures Apply(Overwrite, prog[i - n], c).Ok? && holds(i + 1, Apply(Overwrite, prog[i - n], c).value)
    {
      ForceBefore(ops, i + 1, k);
      assert Steps(env, ops[i], i, c, reached) && prog[i - n] == MeaningOf(env, ops[n + (i - n)]);
      LocatedStep(env, ops, n, start, i, c, reached);
    }
  }

  lemma LocatedStep(env: Env, ops: seq<Operation>, n: nat, start: u64, k: nat, s: Context, reached: (nat, Context) -> bool)
    requires n <= k < |ops| && Located(env, ops, n, start, reached)(k, s) && Steps(env, ops[k], k, s, reached)
    ensures var r := Apply(Overwrite, MeaningOf(env, ops[k]), s); r.Ok? && Located(env, ops, n, start, reached)(k + 1, r.value)
  {
    LocationStep(env, start, ops, n, k);
  }

  lemma FrameLeaves(env: Env, ops: seq<Operation>, n: nat, start: u64, k: nat, pc: u64, c: Context)
    requires n <= k < |ops| && AllWritable(ops) && RunsFor(env, start, ops, n, k, pc) && c.location == LocationAfter(env, start, ops, n, k)
    ensures Leaves(MeaningOf(env, ops[k]), c, pc)
  {
    LocationStep(env, start, ops, n, k);
    assert LocationAfter(env, start, ops, n, k) <= pc;
    MovingLeaves(env, ops[k], c, pc);
  }

  lemma FrameStopsAt(env: Env, ops: seq<Operation>, n: nat, start: u64, k: nat, pc: u64, prog: seq<Instr>, reached: (nat, Context) -> bool)
    requires n <= |ops| && AllWritable(ops) && RunsFor(env, start, ops, n, k, pc) && AllStep(env, ops, n, reached) && ForceAfter(ops, k).Some?
    requires |prog| == |ops| - n && forall i :: 0 <= i < |prog| ==> prog[i] == MeaningOf(env, ops[n + i])
    ensures StopsAt(prog, n, k, pc, Located(env, ops, n, start, reached))
  {
    var holds := Located(env, ops, n, start, reached);
    EachFrameStep(env, ops, n, start, k, prog, reached);
    forall i: nat, c: Context | n <= i <= k && holds(i, c)
      ensures c.location <= pc
    {
      assert LocationAfter(env, start, ops, n, i) <= pc;
    }
    if k < |ops| {
      forall c | holds(k, c)
        ensures Leaves(prog[k - n], c, pc)
      {
        FrameLeaves(env, ops, n, start, k, pc, c);
      }
    }
  }

  lemma FrameStops(env: Env, ops: seq<Operation>, n: nat, start: u64, k: nat, pc: u64, s: Context, prog: seq<Instr>,
                   reached: (nat, Context) -> bool) returns (at: Context)
    requires n <= |ops| && AllWritable(ops) && RunsFor(env, start, ops, n, k, pc) && AllStep(env, ops, n, reached) && ForceAfter(ops, k).Some?
    requires reached(n, s) && s.location == start
    requires |prog| == |ops| - n && forall i :: 0 <= i < |prog| ==> prog[i] == MeaningOf(env, ops[n + i])
    ensures reached(k, at)
    ensures var r := ExecUntil(Overwrite, prog, s, pc); r.Ok? && r.value.cfa == at.cfa && r.value.rules == at.rules
  {
    FrameStopsAt(env, ops, n, start, k, pc, prog, reached);
    assert LocationAfter(env, start, ops, n, n) == start;
    at := UntilStops(prog, n, k, pc, s, Located(env, ops, n, start, reached));
  }

  /** The rule that the CIE's program, the first `n` operations, gives a register. */
  function CieRule(dataAlign: int, ops: seq<Operation>, n: nat, reg: nat): Option<Rule>
    requires n <= |ops| && ForceAfter(ops, n).Some?
  {
    RuleAfter(dataAlign, ops, ForceAfter(ops, n).value.live, n, reg, n, None)
  }

  /** The CFA and the register rules after `k` operations of a frame, the CIE's included. */
  ghost predicate IsMeant(dataAlign: int, ops: seq<Operation>, n: nat, k: nat, cfa: CfaRule, rules: Rules)
    requires n <= k <= |ops| && ForceAfter(ops, n).Some? && ForceAfter(ops, k).Some?
  {
    var live := ForceAfter(ops, k).value.live;
    && cfa.reg == RegisterAfter(ops, live, k)
    && cfa.offset == OffsetAfter(dataAlign, ops, live, k)
    && forall reg :: RuleIn(rules, reg) == RuleAfter(dataAlign, ops, live, k, reg, n, CieRule(dataAlign, ops, n, reg))
  }

  lemma CieRuns(env: Env, cie: seq<Operation>, ops: seq<Operation>, all: seq<Operation>, n: nat)
    requires all == cie + ops && n == |cie| && AllWritable(all) && ForceAfter(all, n).Some?
    ensures var r := Exec(Overwrite, MeaningsOf(env, cie), INITIAL);
            r.Ok? && Reached(env, all, n, map[], n, r.value)
  {
    var prog := CieMeanings(env, cie, ops, all);
    CieStops(env, all, 0, n, map[], prog);
  }

  lemma CieMeanings(env: Env, cie: seq<Operation>, ops: seq<Operation>, all: seq<Operation>) returns (prog: seq<Instr>)
    requires all == cie + ops
    ensures prog == MeaningsOf(env, cie) && |prog| == |cie| <= |all|
    ensures forall i :: 0 <= i < |prog| ==> prog[i] == MeaningOf(env, all[0 + i])
  {
    prog := MeaningsOf(env, cie);
  }

  lemma CieStops(env: Env, ops: seq<Operation>, j: nat, n: nat, none: Rules, prog: seq<Instr>)
    requires j == 0 && none == map[] && n <= |ops| && AllWritable(ops) && ForceAfter(ops, n).Some?
    requires |prog| == n - j && forall i :: 0 <= i < |prog| ==> prog[i] == MeaningOf(env, ops[j + i])
    ensures var r := Exec(Overwrite, prog, INITIAL); r.Ok? && Reached(env, ops, n, none, n, r.value)
  {
    NothingInForce(env, ops, n);
    ReachedSteps(env, ops, j, n, none);
    RunsInForce(env, ops, j, n, INITIAL, prog, ReachedBy(env, ops, n, none));
  }

  lemma NothingInForce(env: Env, ops: seq<Operation>, n: nat)
    ensures Reached(env, ops, n, map[], 0, INITIAL)
  {
    assert ForceAfter(ops, 0) == Some(Force({}, []));
  }

  lemma CieReached(env: Env, ops: seq<Operation>, n: nat, start: u64, s: Context)
    requires n <= |ops| && Reached(env, ops, n, map[], n, s)
    ensures Reached(env, ops, n, s.rules, n, s.(cieRules := s.rules, location := start))
    ensures forall reg :: RuleIn(s.rules, reg) == CieRule(env.dataAlign, ops, n, reg)
  {
    CieInForce(env, ops, n, start, s, ForceAfter(ops, n).value);
  }

  lemma FrameStarts(f: Frame, cie: seq<Operation>, ops: seq<Operation>) returns (s: Context)
    requires AllWritable(cie) && AllWritable(ops) && f.cieProgram == EncodeProgram(cie) && ForceAfter(cie + ops, |cie|).Some?
    ensures StandardStart(f) == Ok(s) && s.location == f.start && Reached(f.env, cie + ops, |cie|, s.cieRules, |cie|, s)
    ensures forall reg :: RuleIn(s.cieRules, reg) == CieRule(f.env.dataAlign, cie + ops, |cie|, reg)
  {
    ProgramDecodes(f.CieEnv(), cie);
    SameMeanings(f.CieEnv(), f.env, cie);
    CieRuns(f.env, cie, ops, cie + ops, |cie|);
    CieReached(f.env, cie + ops, |cie|, f.start, Exec(Overwrite, MeaningsOf(f.env, cie), INITIAL).value);
    s := StandardStart(f).value;
  }

  /** So, of the operations alone: whatever frame is written with them, after as many of its operations as run for
      `pc`, the debugger's CFA rule has the register and the offset of the last operations in force that set them,
      and each register the rule of the last one that is about it, provided that the operations are harmless. */
  lemma WrittenFrameIsMeant(f: Frame, cie: seq<Operation>, ops: seq<Operation>, pc: u64, k: nat)
    requires AllWritable(cie) && AllWritable(ops) && f.cieProgram == EncodeProgram(cie) && f.program == EncodeProgram(ops)
    requires f.start <= pc < Wrap64(f.start + f.range)
    requires RunsFor(f.env, f.start, cie + ops, |cie|, k, pc)
    requires ForceAfter(cie + ops, |cie|).Some? && ForceAfter(cie + ops, k).Some?
    requires StandardStart(f).Ok? ==> HarmlessFrame(f, pc)
    ensures ContextAt(f, pc).Ok?
    ensures IsMeant(f.env.dataAlign, cie + ops, |cie|, k, ContextAt(f, pc).value.cfa, ContextAt(f, pc).value.rules)
  {
    var s := FrameStarts(f, cie, ops);
    FrameIsMeant(f, cie, ops, cie + ops, |cie|, pc, k, s);
  }

  lemma FrameIsMeant(f: Frame, cie: seq<Operation>, ops: seq<Operation>, all: seq<Operation>, n: nat, pc: u64, k: nat, s: Context)
    requires all == cie + ops && n == |cie| && AllWritable(cie) && AllWritable(ops) && f.program == EncodeProgram(ops)
    requires f.start <= pc < Wrap64(f.start + f.range) && RunsFor(f.env, f.start, all, n, k, pc)
    requires ForceAfter(all, n).Some? && ForceAfter(all, k).Some?
    requires StandardStart(f) == Ok(s) && HarmlessFrame(f, pc) && s.location == f.start
    requires Reached(f.env, all, n, s.cieRules, n, s)
    requires forall reg :: RuleIn(s.cieRules, reg) == CieRule(f.env.dataAlign, all, n, reg)
    ensures ContextAt(f, pc).Ok?
    ensures IsMeant(f.env.dataAlign, all, n, k, ContextAt(f, pc).value.cfa, ContextAt(f, pc).value.rules)
  {
    var prog := ProgramIsLater(f.env, cie, ops, all, n);
    var at := ProgramStops(f.env, all, n, f.start, k, pc, s, prog);
    FrameRuns(f, ops, pc, s, prog, at);
    SameIsMeant(f.env.dataAlign, all, n, k, at, ContextAt(f, pc).value);
  }

  lemma ProgramStops(env: Env, ops: seq<Operation>, n: nat, start: u64, k: nat, pc: u64, s: Context, prog: seq<Instr>) returns (at: Context)
    requires n <= |ops| && AllWritable(ops) && RunsFor(env, start, ops, n, k, pc) && ForceAfter(ops, n).Some? && ForceAfter(ops, k).Some?
    requires s.location == start && Reached(env, ops, n, s.cieRules, n, s)
    requires forall reg :: RuleIn(s.cieRules, reg) == CieRule(env.dataAlign, ops, n, reg)
    requires |prog| == |ops| - n && forall i :: 0 <= i < |prog| ==> prog[i] == MeaningOf(env, ops[n + i])
    ensures IsMeant(env.dataAlign, ops, n, k, at.cfa, at.rules)
    ensures var r := ExecUntil(Overwrite, prog, s, pc); r.Ok? && r.value.cfa == at.cfa && r.value.rules == at.rules
  {
    ReachedSteps(env, ops, n, n, s.cieRules);
    at := RulesStop(env, ops, n, start, k, pc, s, prog);
    MeantAt(env, ops, n, s.cieRules, k, at);
  }

  lemma RulesStop(env: Env, ops: seq<Operation>, n: nat, start: u64, k: nat, pc: u64, s: Context, prog: seq<Instr>) returns (at: Context)
    requires n <= |ops| && AllWritable(ops) && RunsFor(env, start, ops, n, k, pc) && ForceAfter(ops, k).Some?
    requires AllStep(env, ops, n, ReachedBy(env, ops, n, s.cieRules))
    requires s.location == start && Reached(env, ops, n, s.cieRules, n, s)
    requires |prog| == |ops| - n && forall i :: 0 <= i < |prog| ==> prog[i] == MeaningOf(env, ops[n + i])
    ensures Reached(env, ops, n, s.cieRules, k, at)
    ensures var r := ExecUntil(Overwrite, prog, s, pc); r.Ok? && r.value.cfa == at.cfa && r.value.rules == at.rules
  {
    at := FrameStops(env, ops, n, start, k, pc, s, prog, ReachedBy(env, ops, n, s.cieRules));
  }

  lemma SameIsMeant(dataAlign: int, ops: seq<Operation>, n: nat, k: nat, a: Context, b: Context)
    requires n <= k <= |ops| && ForceAfter(ops, n).Some? && ForceAfter(ops, k).Some?
    requires IsMeant(dataAlign, ops, n, k, a.cfa, a.rules) && a.cfa == b.cfa && a.rules == b.rules
    ensures IsMeant(dataAlign, ops, n, k, b.cfa, b.rules)
  {
  }

  lemma ProgramIsLater(env: Env, cie: seq<Operation>, ops: seq<Operation>, all: seq<Operation>, n: nat) returns (prog: seq<Instr>)
    requires AllWritable(cie) && AllWritable(ops) && all == cie + ops && n == |cie|
    ensures prog == MeaningsOf(env, ops) && n <= |all| && AllWritable(all)
    ensures |prog| == |all| - n && forall i :: 0 <= i < |prog| ==> prog[i] == MeaningOf(env, all[n + i])
  {
    prog := MeaningsOf(env, ops);
    AppendedWritable(cie, ops, all);
    forall i | 0 <= i < |prog|
      ensures prog[i] == MeaningOf(env, all[n + i])
    {
      assert prog[i] == MeaningOf(env, ops[i]) && all[n + i] == ops[i];
    }
  }

  lemma AppendedWritable(a: seq<Operation>, b: seq<Operation>, all: seq<Operation>)
    requires AllWritable(a) && AllWritable(b) && all == a + b
    ensures AllWritable(all)
  {
    forall i | 0 <= i < |all|
      ensures Writable(all[i])
    {
      assert all[i] == if i < |a| then a[i] else b[i - |a|];
    }
  }

  lemma FrameRuns(f: Frame, ops: seq<Operation>, pc: u64, s: Context, prog: seq<Instr>, at: Context)
    requires f.start <= pc < Wrap64(f.start + f.range) && AllWritable(ops) && f.program == EncodeProgram(ops)
    requires StandardStart(f) == Ok(s) && HarmlessFrame(f, pc) && prog == MeaningsOf(f.env, ops)
    requires var r := ExecUntil(Overwrite, prog, s, pc); r.Ok? && r.value.cfa == at.cfa && r.value.rules == at.rules
    ensures ContextAt(f, pc).Ok? && ContextAt(f, pc).value.cfa == at.cfa && ContextAt(f, pc).value.rules == at.rules
  {
    ProgramDecodes(f.env, ops);
    CieIsPrepared(f);
    ContextIsRun(f, pc, s);
    RunIsTheStandards(f.env, f.program, 0, s, Some(pc));
  }

  lemma MeantAt(env: Env, ops: seq<Operation>, n: nat, cie: Rules, k: nat, s: Context)
    requires n <= k <= |ops| && Reached(env, ops, n, cie, k, s) && ForceAfter(ops, n).Some?
    requires forall reg :: RuleIn(cie, reg) == CieRule(env.dataAlign, ops, n, reg)
    ensures IsMeant(env.dataAlign, ops, n, k, s.cfa, s.rules)
  {
  }

  /** The frame of a function that has pushed its frame pointer: `def_cfa(7, 8)` and `offset(16)` in the CIE, then
      `advance_loc(1)`, `def_cfa_offset(16)` and `offset(6)`. Past the push the CFA is 16 above the stack pointer,
      and with a data alignment of -8 the saved registers are 8 and 16 below the CFA. */
  lemma PushedFramePointer()
    ensures var cie := [Operation(0x0c, 7, 8), Operation(0x90, 1, 1)];
            var ops := cie + [Operation(0x41, 0, 0), Operation(0x0e, 16, 16), Operation(0x86, 2, 2)];
            var live := {0, 1, 2, 3, 4};
            && AllWritable(ops) && ForceAfter(ops, 5) == Some(Force(live, []))
            && RegisterAfter(ops, live, 5) == 7 && OffsetAfter(-8, ops, live, 5) == 16
            && RuleAfter(-8, ops, live, 5, 16, 2, None) == Some(AtOffset(-8))
            && RuleAfter(-8, ops, live, 5, 6, 2, None) == Some(AtOffset(-16))
  {
    var cie, frame := [Operation(0x0c, 7, 8), Operation(0x90, 1, 1)], [Operation(0x41, 0, 0), Operation(0x0e, 16, 16), Operation(0x86, 2, 2)];
    var ops := cie + frame;
    AllInForce(ops);
    assert ops == [Operation(0x0c, 7, 8), Operation(0x90, 1, 1), Operation(0x41, 0, 0), Operation(0x0e, 16, 16), Operation(0x86, 2, 2)];
    OnlyOneSets(ops, {0, 1, 2, 3, 4}, SetsRegister(), 5, 0);
    OnlyOneSets(ops, {0, 1, 2, 3, 4}, SetsOffset(), 5, 3);
    OnlyOneSets(ops, {0, 1, 2, 3, 4}, SetsRule(16), 5, 1);
    OnlyOneSets(ops, {0, 1, 2, 3, 4}, SetsRule(6), 5, 4);
  }

  lemma AllInForce(ops: seq<Operation>)
    requires |ops| == 5 && forall i :: 0 <= i < 5 ==> ops[i].op != 0x0a && ops[i].op != 0x0b
    ensures ForceAfter(ops, 5) == Some(Force({0, 1, 2, 3, 4}, []))
  {
    var none: set<nat> := {};
    assert none + {0} == {0} && {0} + {1} == {0, 1} && {0, 1} + {2} == {0, 1, 2} && {0, 1, 2} + {3} == {0, 1, 2, 3};
    assert {0, 1, 2, 3} + {4} == {0, 1, 2, 3, 4};
    assert ForceAfter(ops, 0) == Some(Force(none, []));
    assert ForceAfter(ops, 1) == Some(Force({0}, []));
    assert ForceAfter(ops, 2) == Some(Force({0, 1}, []));
    assert ForceAfter(ops, 3) == Some(Force({0, 1, 2}, []));
    assert ForceAfter(ops, 4) == Some(Force({0, 1, 2, 3}, []));
  }

  lemma OnlyOneSets(ops: seq<Operation>, live: set<nat>, sets: Operation -> bool, k: nat, i: nat)
    requires i < k <= |ops| && i in live && sets(ops[i]) && forall j :: i < j < k ==> !sets(ops[j])
    ensures LastOf(ops, live, sets, k) == Some(i)
  {
  }

  // ----- Locations of any instructions -----

  /** All that the locations advance by. */
  function Advanced(prog: seq<Instr>): nat {
    if prog == [] then 0 else (if prog[0].Advance? then prog[0].delta else 0) + Advanced(prog[1..])
  }

  lemma {:induction false} AdvancesOnly(policy: Policy, prog: seq<Instr>, s: Context)
    requires Exec(policy, prog, s).Ok? && forall i :: 0 <= i < |prog| ==> !prog[i].SetLocation?
    ensures Exec(policy, prog, s).value.location == Wrap64(s.location + Advanced(prog))
    decreases prog
  {
    if prog != [] {
      var s' := Apply(policy, prog[0], s).value;
      AdvancesOnly(policy, prog[1..], s');
      SumOfProduct(Advanced(prog[1..]), s.location + if prog[0].Advance? then prog[0].delta else 0);
    }
  }

  /** After any program the location is the one last set and the advances after it, whatever came before. */
  lemma LocationIsLastSet(policy: Policy, before: seq<Instr>, location: u64, after: seq<Instr>, s: Context)
    requires Exec(policy, before + ([SetLocation(location)] + after), s).Ok? && forall i :: 0 <= i < |after| ==> !after[i].SetLocation?
    ensures Exec(policy, before + ([SetLocation(location)] + after), s).value.location == Wrap64(location + Advanced(after))
  {
    ExecSplit(policy, before, [SetLocation(location)] + after, s);
    assert ([SetLocation(location)] + after)[1..] == after;
    AdvancesOnly(policy, after, Exec(policy, before, s).value.(location := location));
  }

  /** A frame is only for the addresses of its function. */
  lemma OnlyItsFunction(f: Frame, pc: u64)
    ensures ContextAt(f, pc).Ok? ==> f.start <= pc < (f.start + f.range) % 0x1_0000_0000_0000_0000
    ensures pc < f.start || (f.start + f.range) % 0x1_0000_0000_0000_0000 <= pc ==> ContextAt(f, pc) == Err(NotFound)
  {
  }
}
