/** Watchpoints, which take their slots from the same four as hardware breakpoints and never give one back. */
module Watchpoints {
  import opened Words
  import opened DebugRegisters
  import opened HardwareStops

  datatype Watch = Watch(owner: Owner, enabled: bool, slot: int)

  datatype Watched = Watched(result: Result<()>, state: State, watch: Watch)

  /** `watchpoint::enable`. */
  function EnableWatch(s: State, w: Watch): Watched
    requires s.Valid()
  {
    if w.enabled then Watched(Ok(()), s, w)
    else
      var out := SetStep(s, w.owner.address, w.owner.mode, w.owner.size);
      match out.result
      case Err(e) => Watched(Err(e), out.state, w)
      case Ok(slot) => Watched(Ok(()), out.state, w.(enabled := true, slot := slot))
  }

  /** `watchpoint::disable`, with its guard the wrong way round: it only goes on when there is nothing to
      disable, and then shifts by a negative amount unless some slot is left over. */
  function DisableWatch(s: State, w: Watch): Watched
    requires s.Valid()
  {
    if w.enabled then Watched(Ok(()), s, w)
    else if !(0 <= w.slot < 4) then Watched(Err(ShiftTooWide), s, w)
    else Watched(Ok(()), ClearStep(s, w.slot), w)
  }

  class Watchpoint {
    const owner: Owner
    var enabled: bool
    var slot: int

    ghost function View(): Watch
      reads this
    {
      Watch(owner, enabled, slot)
    }

    constructor (owner: Owner)
      ensures View() == Watch(owner, false, -1)
    {
      this.owner, enabled, slot := owner, false, -1;
    }

    method Enable(p: Process) returns (r: Result<()>)
      requires p.View().Valid()
      modifies this, p`cached, p`kernel
      ensures Watched(r, p.View(), View()) == EnableWatch(old(p.View()), old(View()))
    {
      if enabled {
        return Ok(());
      }
      var index :- p.SetStoppoint(owner.address, owner.mode, owner.size);
      slot := index;
      enabled := true;
      r := Ok(());
    }

    method Disable(p: Process) returns (r: Result<()>)
      requires p.View().Valid()
      modifies this, p`cached, p`kernel
      ensures Watched(r, p.View(), View()) == DisableWatch(old(p.View()), old(View()))
    {
      if enabled {
        return Ok(());
      }
      if slot < 0 || slot >= 4 {
        return Err(ShiftTooWide);
      }
      p.ClearStoppoint(slot);
      enabled := false;
      r := Ok(());
    }
  }

  /** Enabling a disabled watchpoint succeeds if and only if a slot is free and its size is one of the four. It then
      owns the lowest free slot, which shows its address, mode and size; otherwise it stays as it is. */
  lemma WatchEnableExactly(s: State, owners: Owners, w: Watch)
    requires Inv(s, owners) && !w.enabled
    ensures var out := EnableWatch(s, w);
            && (out.result.Ok? <==> !(forall i: Slot :: i in owners) && w.owner.size in {1, 2, 4, 8})
            && (out.result.Err? ==> out.watch == w && Inv(out.state, owners))
            && (out.result.Ok? ==>
                  && out.watch.enabled && out.watch.owner == w.owner && 0 <= out.watch.slot < 4 && out.watch.slot !in owners
                  && (forall i: Slot :: i < out.watch.slot ==> i in owners)
                  && Inv(out.state, owners[out.watch.slot := w.owner]))
  {
    SetKeeps(s, owners, w.owner);
    FreeExactly(s, owners);
  }

  // ----- Runs -----

  /** `Other` is what the rest of the debugger does with the registers: breakpoints taking slots and clearing
      theirs, thread selection, stops of threads. */
  datatype WatchStep = Other(op: Op) | Create(owner: Owner) | Enable(i: nat) | Disable(i: nat) | Remove(i: nat)

  /** `taken` are the slots that watchpoints have been given so far, `given` counts how often. */
  datatype Trace = Trace(run: Run, watches: seq<Watch>, taken: set<Slot>, given: nat)

  ghost predicate Defined(t: Trace, step: WatchStep)
    requires t.run.state.Valid()
  {
    match step
    case Other(op) => op.Clear? ==> op.slot in t.run.owners && op.slot !in t.taken
    case Create(_) => true
    case Enable(i) => i < |t.watches|
    case Disable(i) => i < |t.watches| && DisableWatch(t.run.state, t.watches[i]).result.Ok?
    case Remove(i) => i < |t.watches| && DisableWatch(t.run.state, t.watches[i]).result.Ok?
  }

  /** One step that the source defines; `Remove` disables the watchpoint and erases it. */
  ghost function AfterStep(t: Trace, step: WatchStep): Trace
    requires t.run.state.Valid() && Defined(t, step)
  {
    match step
    case Other(op) => t.(run := HardwareStops.Step(t.run, op))
    case Create(owner) => t.(watches := t.watches + [Watch(owner, false, -1)])
    case Enable(i) => AfterEnable(t, i)
    case Disable(i) => t.(run := t.run.(state := DisableWatch(t.run.state, t.watches[i]).state))
    case Remove(i) => Trace(t.run.(state := DisableWatch(t.run.state, t.watches[i]).state), t.watches[..i] + t.watches[i + 1..], t.taken, t.given)
  }

  ghost function AfterEnable(t: Trace, i: nat): Trace
    requires t.run.state.Valid() && i < |t.watches|
  {
    var w := t.watches[i];
    var out := EnableWatch(t.run.state, w);
    if w.enabled then t
    else if out.result.Err? then t.(run := t.run.(state := out.state))
    else Trace(Run(out.state, t.run.owners[out.watch.slot := w.owner]), t.watches[i := out.watch], t.taken + {out.watch.slot}, t.given + 1)
  }

  /** The watchpoint is disabled and has no slot, or owns one. */
  predicate Owns(w: Watch, owners: Owners, taken: set<Slot>) {
    if w.enabled then 0 <= w.slot < 4 && w.slot in taken && w.slot in owners && owners[w.slot] == w.owner else w.slot == -1
  }

  /** Every slot that a watchpoint was ever given is still owned, no slot was given twice, and those of the enabled
      watchpoints are theirs. */
  predicate Held(owners: Owners, watches: seq<Watch>, taken: set<Slot>, given: nat) {
    && taken <= owners.Keys && |taken| == given
    && (forall i :: 0 <= i < |watches| ==> Owns(watches[i], owners, taken))
    && (forall i, j :: 0 <= i < j < |watches| && watches[i].enabled && watches[j].enabled ==> watches[i].slot != watches[j].slot)
  }

  /** And the registers show all owners. */
  ghost predicate Sound(t: Trace) {
    Intact(t.run) && Held(t.run.owners, t.watches, t.taken, t.given)
  }

  predicate LosesAt(t: Trace, step: WatchStep) {
    step.Other? && Loses(t.run, step.op)
  }

  lemma HeldOne(owners: Owners, watches: seq<Watch>, taken: set<Slot>, given: nat, i: nat)
    requires Held(owners, watches, taken, given) && i < |watches|
    ensures Owns(watches[i], owners, taken)
  {
  }

  /** In a sound state `disable` does nothing to an enabled watchpoint, and is undefined for any other. */
  lemma DisableExactly(t: Trace, i: nat)
    requires Sound(t) && i < |t.watches|
    ensures var w, out := t.watches[i], DisableWatch(t.run.state, t.watches[i]);
            (out.result.Ok? <==> w.enabled) && (out.result.Ok? ==> out.state == t.run.state && out.watch == w)
  {
    HeldOne(t.run.owners, t.watches, t.taken, t.given, i);
  }

  lemma HeldGiven(owners: Owners, watches: seq<Watch>, taken: set<Slot>, given: nat, i: nat, slot: Slot)
    requires Held(owners, watches, taken, given) && i < |watches| && !watches[i].enabled && slot !in owners
    ensures var w := watches[i];
            Held(owners[slot := w.owner], watches[i := w.(enabled := true, slot := slot)], taken + {slot}, given + 1)
  {
    var w := watches[i];
    var owners', watches', taken' := owners[slot := w.owner], watches[i := w.(enabled := true, slot := slot)], taken + {slot};
    forall j | 0 <= j < |watches'|
      ensures Owns(watches'[j], owners', taken')
    {
      assert Owns(watches[j], owners, taken);
    }
    forall j, k | 0 <= j < k < |watches'| && watches'[j].enabled && watches'[k].enabled
      ensures watches'[j].slot != watches'[k].slot
    {
      assert Owns(watches[j], owners, taken) && Owns(watches[k], owners, taken);
    }
  }

  lemma HeldErased(owners: Owners, watches: seq<Watch>, taken: set<Slot>, given: nat, i: nat)
    requires Held(owners, watches, taken, given) && i < |watches|
    ensures Held(owners, watches[..i] + watches[i + 1..], taken, given)
  {
    var after := watches[..i] + watches[i + 1..];
    assert forall j :: 0 <= j < |after| ==> after[j] == watches[if j < i then j else j + 1];
  }

  lemma HeldBeside(owners: Owners, watches: seq<Watch>, taken: set<Slot>, given: nat, owners': Owners)
    requires Held(owners, watches, taken, given) && forall k :: k in taken ==> k in owners' && owners'[k] == owners[k]
    ensures Held(owners', watches, taken, given)
  {
    forall i | 0 <= i < |watches|
      ensures Owns(watches[i], owners', taken)
    {
      assert Owns(watches[i], owners, taken);
    }
  }

  lemma SetIsIntact(run: Run, o: Owner, after: Run)
    requires Intact(run)
    requires var out := SetStep(run.state, o.address, o.mode, o.size); after == Run(out.state, OwnersAfterSet(out, run.owners, o))
    ensures Intact(after)
    ensures var result := SetStep(run.state, o.address, o.mode, o.size).result; result.Ok? ==> result.value !in run.owners
  {
    SetKeeps(run.state, run.owners, o);
  }

  /** A watchpoint that is not enabled takes the slot that it is given. */
  lemma AfterEnableIs(t: Trace, i: nat)
    requires t.run.state.Valid() && i < |t.watches| && !t.watches[i].enabled
    ensures var w, on := t.watches[i], AfterEnable(t, i);
            var result := SetStep(t.run.state, w.owner.address, w.owner.mode, w.owner.size).result;
            if result.Ok? then
              && on.run.owners == t.run.owners[result.value := w.owner] && on.taken == t.taken + {result.value}
              && on.watches == t.watches[i := w.(enabled := true, slot := result.value)] && on.given == t.given + 1
            else on.run.owners == t.run.owners && on.watches == t.watches && on.taken == t.taken && on.given == t.given
  {
  }

  lemma EnableIsHeld(t: Trace, i: nat, result: Result<Slot>, on: Trace)
    requires Held(t.run.owners, t.watches, t.taken, t.given) && i < |t.watches| && !t.watches[i].enabled
    requires result.Ok? ==> result.value !in t.run.owners
    requires if result.Ok? then
               && on.run.owners == t.run.owners[result.value := t.watches[i].owner] && on.taken == t.taken + {result.value}
               && on.watches == t.watches[i := t.watches[i].(enabled := true, slot := result.value)] && on.given == t.given + 1
             else on.run.owners == t.run.owners && on.watches == t.watches && on.taken == t.taken && on.given == t.given
    ensures Held(on.run.owners, on.watches, on.taken, on.given)
  {
    if result.Ok? {
      HeldGiven(t.run.owners, t.watches, t.taken, t.given, i, result.value);
    }
  }

  lemma EnableIsSound(t: Trace, i: nat)
    requires Sound(t) && i < |t.watches|
    ensures Sound(AfterEnable(t, i))
  {
    if !t.watches[i].enabled {
      var o := t.watches[i].owner;
      SetIsIntact(t.run, o, AfterEnable(t, i).run);
      AfterEnableIs(t, i);
      EnableIsHeld(t, i, SetStep(t.run.state, o.address, o.mode, o.size).result, AfterEnable(t, i));
    }
  }

  /** What else takes slots takes free ones, and clears no slot of a watchpoint. */
  lemma OtherLeaves(t: Trace, op: Op)
    requires Sound(t) && Defined(t, Other(op))
    ensures Held(HardwareStops.Step(t.run, op).owners, t.watches, t.taken, t.given)
  {
    if op.Set? {
      SetKeeps(t.run.state, t.run.owners, op.owner);
    }
    HeldBeside(t.run.owners, t.watches, t.taken, t.given, HardwareStops.Step(t.run, op).owners);
  }

  lemma OtherExactly(t: Trace, op: Op)
    requires Sound(t) && Defined(t, Other(op))
    ensures Sound(AfterStep(t, Other(op))) <==> !Loses(t.run, op)
  {
    StepExactly(t.run, op);
    OtherLeaves(t, op);
  }

  lemma RemoveIsSound(t: Trace, i: nat)
    requires Sound(t) && Defined(t, Remove(i))
    ensures Sound(AfterStep(t, Remove(i)))
  {
    DisableExactly(t, i);
    HeldErased(t.run.owners, t.watches, t.taken, t.given, i);
  }

  lemma NextExactly(t: Trace, step: WatchStep)
    requires Sound(t) && Defined(t, step)
    ensures Sound(AfterStep(t, step)) <==> !LosesAt(t, step)
  {
    match step
    case Other(op) => OtherExactly(t, op);
    case Create(_) =>
    case Enable(i) => EnableIsSound(t, i);
    case Disable(i) => DisableExactly(t, i);
    case Remove(i) => RemoveIsSound(t, i);
  }

  lemma GivenGrows(t: Trace, step: WatchStep)
    requires t.run.state.Valid() && Defined(t, step)
    ensures t.taken <= AfterStep(t, step).taken && t.given <= AfterStep(t, step).given
  {
  }

  /** A tracee without watchpoints and with zero debug registers: where runs start. */
  lemma StartIsSound(s: State)
    requires s.Valid()
    requires forall tid :: tid in s.cached ==> s.cached[tid].dr7 == {} && s.kernel[tid].dr7 == {}
    ensures Sound(Trace(Run(s, map[]), [], {}, 0))
  {
    ZeroRegistersOwnNothing(s);
  }

  ghost predicate IsWatchRun(states: seq<Trace>, steps: seq<WatchStep>) {
    && |states| == |steps| + 1
    && forall k :: 0 <= k < |steps| ==>
         states[k].run.state.Valid() && Defined(states[k], steps[k]) && states[k + 1] == AfterStep(states[k], steps[k])
  }

  /** Over every run of watchpoints and breakpoints: no slot has two owners, in all states, if and only if no
      thread but the main one stops while a slot is owned. */
  lemma {:induction false} EveryWatchRunExactly(states: seq<Trace>, steps: seq<WatchStep>)
    requires IsWatchRun(states, steps) && Sound(states[0])
    ensures (forall k :: 0 <= k <= |steps| ==> Sound(states[k])) <==> (forall k :: 0 <= k < |steps| ==> !LosesAt(states[k], steps[k]))
  {
    if forall k :: 0 <= k <= |steps| ==> Sound(states[k]) {
      forall k | 0 <= k < |steps|
        ensures !LosesAt(states[k], steps[k])
      {
        assert Sound(states[k]) && Sound(states[k + 1]);
        NextExactly(states[k], steps[k]);
      }
    }
    if forall k :: 0 <= k < |steps| ==> !LosesAt(states[k], steps[k]) {
      forall k | 0 <= k <= |steps|
        ensures Sound(states[k])
      {
        StaysSound(states, steps, 0, k);
      }
    }
  }

  lemma {:induction false} StaysSound(states: seq<Trace>, steps: seq<WatchStep>, j: nat, k: nat)
    requires IsWatchRun(states, steps) && j <= k <= |steps| && Sound(states[j])
    requires forall i :: j <= i < k ==> !LosesAt(states[i], steps[i])
    ensures Sound(states[k]) && states[j].taken <= states[k].taken && states[j].given <= states[k].given
    decreases k - j
  {
    if j < k {
      NextExactly(states[j], steps[j]);
      GivenGrows(states[j], steps[j]);
      StaysSound(states, steps, j + 1, k);
    }
  }

  predicate CanBeSet(t: Trace, o: Owner)
    requires t.run.state.Valid()
  {
    SetStep(t.run.state, o.address, o.mode, o.size).result != Err(NoFreeRegister)
  }

  lemma CanBeSetExactly(t: Trace, o: Owner)
    requires Sound(t)
    ensures CanBeSet(t, o) <==> |t.run.owners| < 4
    ensures t.given <= |t.run.owners| <= 4
  {
    SetKeeps(t.run.state, t.run.owners, o);
    FourSlots(t.run.owners.Keys);
    SubsetSize(t.taken, t.run.owners.Keys);
  }

  /** The slots of watchpoints never come free: whatever is disabled or removed after step `j` of such a run,
      stop points of either kind can be set only while the watchpoints ever enabled and the live breakpoints are
      fewer than four; and once watchpoints have been given all slots, none can be set again. */
  lemma SlotsNeverComeFree(states: seq<Trace>, steps: seq<WatchStep>, j: nat, k: nat, o: Owner)
    requires IsWatchRun(states, steps) && j <= k <= |steps| && Sound(states[j])
    requires forall i :: j <= i < k ==> !LosesAt(states[i], steps[i])
    ensures states[j].taken <= states[k].taken <= states[k].run.owners.Keys && |states[k].taken| == states[k].given <= 4
    ensures states[k].run.state.Valid() && (CanBeSet(states[k], o) <==> |states[k].run.owners| < 4)
    ensures states[j].given == 4 ==> !CanBeSet(states[k], o)
  {
    StaysSound(states, steps, j, k);
    CanBeSetExactly(states[k], o);
  }

  lemma EnableGives(t: Trace, i: nat)
    requires Sound(t) && i < |t.watches| && !t.watches[i].enabled
    requires CanBeSet(t, t.watches[i].owner) && t.watches[i].owner.size in {1, 2, 4, 8}
    ensures var on := AfterEnable(t, i);
            && |on.watches| == |t.watches| && on.watches == t.watches[i := on.watches[i]] && on.watches[i].enabled
            && on.given == t.given + 1 && |on.run.owners| == |t.run.owners| + 1
  {
    SetKeeps(t.run.state, t.run.owners, t.watches[i].owner);
  }

  /** The witness: a watchpoint that is enabled and removed leaves its slot owned. */
  lemma RemovedKeepsItsSlot(t: Trace, i: nat)
    requires Sound(t) && i < |t.watches| && !t.watches[i].enabled
    requires CanBeSet(t, t.watches[i].owner) && t.watches[i].owner.size in {1, 2, 4, 8}
    ensures var on := AfterEnable(t, i);
            && on.run.state.Valid() && Defined(on, Remove(i))
            && AfterStep(on, Remove(i)) == on.(watches := t.watches[..i] + t.watches[i + 1..])
            && on.given == t.given + 1 && |on.run.owners| == |t.run.owners| + 1
  {
    var on := AfterEnable(t, i);
    EnableGives(t, i);
    EnableIsSound(t, i);
    RemoveOnly(on, i);
    assert on.watches[..i] + on.watches[i + 1..] == t.watches[..i] + t.watches[i + 1..];
  }

  lemma RemoveOnly(t: Trace, i: nat)
    requires Sound(t) && i < |t.watches| && t.watches[i].enabled
    ensures Defined(t, Remove(i)) && AfterStep(t, Remove(i)) == t.(watches := t.watches[..i] + t.watches[i + 1..])
  {
    DisableExactly(t, i);
  }

  lemma FourSlots(slots: set<Slot>)
    ensures |slots| <= 4 && (|slots| == 4 <==> forall i: Slot :: i in slots)
  {
    var all: set<Slot> := {0, 1, 2, 3};
    assert slots <= all;
    assert all == slots + (all - slots);
    if |slots| == 4 {
      assert all - slots == {};
    }
    if forall i: Slot :: i in slots {
      assert slots == all;
    }
  }
}
