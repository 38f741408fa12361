/** Setting and clearing hardware stop points over all threads: the debugger's cached registers, the
    kernel's registers, and which stop point owns which slot. */
module HardwareStops {
  import opened Words
  import opened DebugRegisters

  type Addresses = a: seq<u64> | |a| == 4 witness [0, 0, 0, 0]

  datatype Registers = Registers(dr: Addresses, dr7: Bits)

  /** `cached` is what the debugger holds for each thread, `kernel` what the threads run with. */
  datatype State = State(cached: map<int, Registers>, kernel: map<int, Registers>, pid: int, current: int) {
    predicate Valid() {
      current in cached && pid in cached && cached.Keys == kernel.Keys
    }
  }

  /** Both branches of `registers::write` end in `write_user_area`, which pokes `m_Pid` whichever
      thread it is given. */
  function WriteDr(s: State, tid: int, slot: Slot, address: u64): (s': State)
    requires s.Valid() && tid in s.cached
    ensures s'.Valid()
  {
    var regs, main := s.cached[tid], s.kernel[s.pid];
    s.(cached := s.cached[tid := regs.(dr := regs.dr[slot := address])],
       kernel := s.kernel[s.pid := main.(dr := main.dr[slot := address])])
  }

  function WriteDr7(s: State, tid: int, control: Bits): (s': State)
    requires s.Valid() && tid in s.cached
    ensures s'.Valid()
  {
    s.(cached := s.cached[tid := s.cached[tid].(dr7 := control)],
       kernel := s.kernel[s.pid := s.kernel[s.pid].(dr7 := control)])
  }

  function FirstFree(control: Bits, from: nat): (r: Option<Slot>)
    requires from <= 4
    ensures r.Some? ==> from <= r.value && Free(control, r.value)
    ensures forall i: Slot :: from <= i && (r.None? || i < r.value) ==> !Free(control, i)
    decreases 4 - from
  {
    if from == 4 then None
    else if Free(control, from) then Some(from)
    else FirstFree(control, from + 1)
  }

  /** Every cached register file, and the main thread's in the kernel, with a slot and DR7 written. */
  function Everywhere(s: State, slot: Slot, address: u64, control: Bits): State
    requires s.Valid()
  {
    var main := s.kernel[s.pid];
    s.(cached := map t | t in s.cached :: Registers(s.cached[t].dr[slot := address], control),
       kernel := s.kernel[s.pid := Registers(main.dr[slot := address], control)])
  }

  datatype Outcome = Outcome(result: Result<Slot>, state: State)

  /** An invalid size is noticed only after the address register has been written. */
  function SetStep(s: State, address: u64, mode: Mode, size: nat): Outcome
    requires s.Valid()
  {
    var control := s.cached[s.current].dr7;
    match FirstFree(control, 0)
    case None => Outcome(Err(NoFreeRegister), s)
    case Some(slot) =>
      match EncodeSize(size)
      case Err(e) => Outcome(Err(e), WriteDr(s, s.current, slot, address))
      case Ok(bits) => Outcome(Ok(slot), Everywhere(s, slot, address, Armed(control, slot, EncodeMode(mode), bits)))
  }

  function ClearStep(s: State, slot: Slot): State
    requires s.Valid()
  {
    Everywhere(s, slot, 0, Cleared(s.cached[s.current].dr7, slot))
  }

  /** `read_all_registers`: the thread has stopped, and its cached registers are read from the kernel. */
  function Refreshed(s: State, tid: int): (s': State)
    requires s.Valid() && tid in s.cached
    ensures s'.Valid()
  {
    s.(cached := s.cached[tid := s.kernel[tid]])
  }

  class Process {
    var cached: map<int, Registers>
    var kernel: map<int, Registers>
    const pid: int
    var current: int

    ghost function View(): State
      reads this
    {
      State(cached, kernel, pid, current)
    }

    constructor (pid: int, threads: map<int, Registers>)
      requires pid in threads
      ensures View() == State(threads, threads, pid, pid)
    {
      this.pid, current := pid, pid;
      cached, kernel := threads, threads;
    }

    method Write(tid: int, slot: Slot, address: u64)
      requires View().Valid() && tid in cached
      modifies this`cached, this`kernel
      ensures View() == WriteDr(old(View()), tid, slot, address)
    {
      cached := cached[tid := cached[tid].(dr := cached[tid].dr[slot := address])];
      kernel := kernel[pid := kernel[pid].(dr := kernel[pid].dr[slot := address])];
    }

    method WriteControl(tid: int, control: Bits)
      requires View().Valid() && tid in cached
      modifies this`cached, this`kernel
      ensures View() == WriteDr7(old(View()), tid, control)
    {
      cached := cached[tid := cached[tid].(dr7 := control)];
      kernel := kernel[pid := kernel[pid].(dr7 := control)];
    }

    method ReadAllRegisters(tid: int)
      requires View().Valid() && tid in cached
      modifies this`cached
      ensures View() == Refreshed(old(View()), tid)
    {
      cached := cached[tid := kernel[tid]];
    }

    method SetCurrentThread(tid: int)
      requires View().Valid() && tid in cached
      modifies this`current
      ensures View() == old(View()).(current := tid)
    {
      current := tid;
    }

    method FindFree(control: Bits) returns (r: Result<Slot>)
      ensures r == match FirstFree(control, 0) case Some(slot) => Ok(slot) case None => Err(NoFreeRegister)
    {
      for i := 0 to 4
        invariant FirstFree(control, 0) == FirstFree(control, i)
      {
        if Free(control, i) {
          return Ok(i);
        }
      }
      r := Err(NoFreeRegister);
    }

    /** The loop that both operations end with: the other threads, in any order. */
    method WriteOthers(slot: Slot, address: u64, control: Bits)
      requires View().Valid()
      requires cached[current].dr[slot] == address && cached[current].dr7 == control
      requires kernel[pid].dr[slot] == address && kernel[pid].dr7 == control
      modifies this`cached, this`kernel
      ensures View() == Everywhere(old(View()), slot, address, control)
    {
      var todo: set<int> := cached.Keys - {current};
      while todo != {}
        invariant todo <= cached.Keys - {current}
        invariant View().Valid() && cached.Keys == old(cached).Keys && kernel == old(kernel)
        invariant forall t :: t in cached && t in todo ==> cached[t] == old(cached)[t]
        invariant forall t :: t in cached && t !in todo ==> cached[t] == Registers(old(cached)[t].dr[slot := address], control)
        decreases todo
      {
        var tid := Pick(todo);
        Write(tid, slot, address);
        WriteControl(tid, control);
        assert kernel == old(kernel) by {
          assert kernel[pid].dr == old(kernel)[pid].dr;
        }
        todo := todo - {tid};
      }
      var done := Everywhere(old(View()), slot, address, control);
      forall t | t in cached
        ensures cached[t] == done.cached[t]
      {
        assert t !in todo;
      }
      assert kernel[pid].dr == old(kernel)[pid].dr[slot := address];
    }

    method SetStoppoint(address: u64, mode: Mode, size: nat) returns (r: Result<Slot>)
      requires View().Valid()
      modifies this`cached, this`kernel
      ensures Outcome(r, View()) == SetStep(old(View()), address, mode, size)
    {
      var control := cached[current].dr7;
      var slot :- FindFree(control);
      Write(current, slot, address);
      var sizeFlag :- EncodeSize(size);
      var masked := Armed(control, slot, EncodeMode(mode), sizeFlag);
      WriteControl(current, masked);
      WriteOthers(slot, address, masked);
      SecondWrite(old(View()), slot, address, masked);
      r := Ok(slot);
    }

    method ClearStoppoint(slot: Slot)
      requires View().Valid()
      modifies this`cached, this`kernel
      ensures View() == ClearStep(old(View()), slot)
    {
      Write(current, slot, 0);
      var masked := Cleared(cached[current].dr7, slot);
      WriteControl(current, masked);
      WriteOthers(slot, 0, masked);
      SecondWrite(old(View()), slot, 0, masked);
    }
  }

  /** Writing the current thread first changes nothing in what the loop leaves. */
  lemma SecondWrite(s: State, slot: Slot, address: u64, control: Bits)
    requires s.Valid()
    ensures Everywhere(WriteDr7(WriteDr(s, s.current, slot, address), s.current, control), slot, address, control)
         == Everywhere(s, slot, address, control)
  {
    var s1 := WriteDr7(WriteDr(s, s.current, slot, address), s.current, control);
    var a, b := Everywhere(s1, slot, address, control), Everywhere(s, slot, address, control);
    assert a.cached.Keys == b.cached.Keys;
    forall t | t in a.cached
      ensures a.cached[t] == b.cached[t]
    {
      assert s1.cached[t].dr[slot := address] == s.cached[t].dr[slot := address];
    }
    assert s1.kernel[s.pid].dr[slot := address] == s.kernel[s.pid].dr[slot := address];
    assert a.kernel == b.kernel;
  }

  // ----- Ownership over whole runs -----

  datatype Owner = Owner(address: u64, mode: Mode, size: nat)

  type Owners = map<Slot, Owner>

  /** The registers show exactly the owned slots, each with its owner's address, mode and size. */
  ghost predicate Shows(regs: Registers, owners: Owners) {
    && (forall i: Slot :: i !in owners <==> EnableBits(regs.dr7, i) == {})
    && (forall i: Slot :: i in owners ==> ShowsOwner(regs, i, owners[i]))
  }

  predicate ShowsOwner(regs: Registers, i: Slot, o: Owner) {
    && regs.dr[i] == o.address
    && EnableBits(regs.dr7, i) == {0}
    && ModeBits(regs.dr7, i) == EncodeMode(o.mode)
    && EncodeSize(o.size) == Ok(SizeBits(regs.dr7, i))
  }

  /** A pair of bits as a number. */
  function Two(bits: Bits): nat {
    (if 0 in bits then 1 else 0) + (if 1 in bits then 2 else 0)
  }

  /** What the processor sees of an owned slot: enabled locally, the kind of access as 0 (execution), 1 (writes) or 3
      (reads and writes), and the size as 0, 1, 3 or 2 for 1, 2, 4 or 8 bytes. */
  lemma OwnerInBits(regs: Registers, i: Slot, o: Owner)
    requires ShowsOwner(regs, i, o)
    ensures regs.dr[i] == o.address && Two(EnableBits(regs.dr7, i)) == 1
    ensures Two(ModeBits(regs.dr7, i)) == match o.mode case Execute => 0 case WriteAccess => 1 case ReadWrite => 3
    ensures o.size in {1, 2, 4, 8}
    ensures Two(SizeBits(regs.dr7, i)) == if o.size == 1 then 0 else if o.size == 2 then 1 else if o.size == 4 then 3 else 2
  {
  }

  /** The sizes that there are. */
  lemma SizesExactly(size: nat)
    ensures EncodeSize(size).Ok? <==> size in {1, 2, 4, 8}
  {
  }

  /** The bit of DR7 enables or describes an owned slot. */
  predicate InOwned(b: int, owners: Owners) {
    (0 <= b < 8 && b / 2 in owners) || (16 <= b < 32 && (b - 16) / 4 in owners)
  }

  ghost predicate OnlyOwned(control: Bits, owners: Owners) {
    forall b :: b in control ==> InOwned(b, owners)
  }

  /** DR7 has no bits but those of owned slots, and in the kernel it is zero for all but the main thread. */
  ghost predicate Tidy(s: State, owners: Owners) {
    && s.Valid()
    && (forall t :: t in s.cached ==> OnlyOwned(s.cached[t].dr7, owners))
    && OnlyOwned(s.kernel[s.pid].dr7, owners)
    && (forall t :: t in s.kernel && t != s.pid ==> s.kernel[t].dr7 == {})
  }

  /** Every thread's cached registers, and the kernel's of the main thread, show the owned slots. */
  ghost predicate Shown(s: State, owners: Owners) {
    && s.Valid()
    && (forall t :: t in s.cached ==> s.cached[t].dr7 == s.cached[s.current].dr7 && Shows(s.cached[t], owners))
    && s.kernel[s.pid].dr7 == s.cached[s.current].dr7
    && Shows(s.kernel[s.pid], owners)
    && IsWord(s.cached[s.current].dr7)
  }

  /** Each live slot has one owner, and nothing else is set. */
  ghost predicate Inv(s: State, owners: Owners) {
    Shown(s, owners) && Tidy(s, owners)
  }

  lemma OwnedBitsAreWord(control: Bits, owners: Owners)
    requires OnlyOwned(control, owners)
    ensures IsWord(control) && UpperHalf(control) == {}
  {
  }

  lemma NoOwnersNoBits(control: Bits)
    requires OnlyOwned(control, map[])
    ensures control == {}
  {
    assert forall b :: b in control ==> InOwned(b, map[]);
    assert forall b :: b !in control;
  }

  lemma ClearedOnly(control: Bits, owners: Owners, slot: Slot)
    requires OnlyOwned(control, owners)
    ensures OnlyOwned(Cleared(control, slot), owners - {slot})
  {
    OwnedBitsAreWord(control, owners);
    forall b | b in Cleared(control, slot)
      ensures InOwned(b, owners - {slot})
    {
      ClearedBits(control, slot, b);
    }
  }

  lemma ArmedOnly(control: Bits, owners: Owners, slot: Slot, o: Owner)
    requires OnlyOwned(control, owners) && EncodeSize(o.size).Ok?
    ensures OnlyOwned(Armed(control, slot, EncodeMode(o.mode), EncodeSize(o.size).value), owners[slot := o])
  {
    OwnedBitsAreWord(control, owners);
    var mode, size := EncodeMode(o.mode), EncodeSize(o.size).value;
    ArmedSlot(control, slot, mode, size, slot);
    forall b | b in Armed(control, slot, mode, size)
      ensures InOwned(b, owners[slot := o])
    {
      ArmedBits(control, slot, mode, size, b);
      if b in Cleared(control, slot) {
        ClearedBits(control, slot, b);
        assert InOwned(b, owners);
      } else {
        OwnBit(slot, b, owners[slot := o]);
      }
    }
  }

  lemma OwnBit(slot: Slot, b: int, owners: Owners)
    requires slot in owners && (b == slot * 2 || slot * 4 + 16 <= b < slot * 4 + 20)
    ensures InOwned(b, owners)
  {
  }

  /** Writing one slot and DR7 so that the other slots keep their fields. */
  lemma ShowsUpdate(regs: Registers, owners: Owners, slot: Slot, o: Owner, control: Bits)
    requires Shows(regs, owners) && EncodeSize(o.size).Ok?
    requires control == Armed(regs.dr7, slot, EncodeMode(o.mode), EncodeSize(o.size).value) && IsWord(regs.dr7)
    ensures Shows(Registers(regs.dr[slot := o.address], control), owners[slot := o])
  {
    var after := Registers(regs.dr[slot := o.address], control);
    forall i: Slot
      ensures i !in owners[slot := o] <==> EnableBits(after.dr7, i) == {}
      ensures i in owners[slot := o] ==> ShowsOwner(after, i, owners[slot := o][i])
    {
      ArmedSlot(regs.dr7, slot, EncodeMode(o.mode), EncodeSize(o.size).value, i);
      if i == slot {
        assert 0 in EnableBits(control, i);
      } else if i in owners {
        assert ShowsOwner(regs, i, owners[i]);
      }
    }
  }

  lemma ShowsClear(regs: Registers, owners: Owners, slot: Slot, control: Bits)
    requires Shows(regs, owners) && control == Cleared(regs.dr7, slot) && IsWord(regs.dr7)
    ensures Shows(Registers(regs.dr[slot := 0], control), owners - {slot})
  {
    var after := Registers(regs.dr[slot := 0], control);
    forall i: Slot
      ensures i !in owners - {slot} <==> EnableBits(after.dr7, i) == {}
      ensures i in owners - {slot} ==> ShowsOwner(after, i, owners[i])
    {
      ClearedSlot(regs.dr7, slot, i);
      if i != slot && i in owners {
        assert ShowsOwner(regs, i, owners[i]);
      }
    }
  }

  /** A free slot's address register may hold anything. */
  lemma ShowsScratch(regs: Registers, owners: Owners, slot: Slot, address: u64)
    requires Shows(regs, owners) && slot !in owners
    ensures Shows(regs.(dr := regs.dr[slot := address]), owners)
  {
    var after := regs.(dr := regs.dr[slot := address]);
    forall i: Slot | i in owners
      ensures ShowsOwner(after, i, owners[i])
    {
      assert ShowsOwner(regs, i, owners[i]);
    }
  }

  /** What setting a stop point leaves of the owners. */
  function OwnersAfterSet(out: Outcome, owners: Owners, o: Owner): Owners {
    if out.result.Ok? then owners[out.result.value := o] else owners
  }

  lemma SetIsTidy(s: State, owners: Owners, o: Owner)
    requires Tidy(s, owners)
    ensures var out := SetStep(s, o.address, o.mode, o.size);
            Tidy(out.state, OwnersAfterSet(out, owners, o))
  {
    var control := s.cached[s.current].dr7;
    var slot := FirstFree(control, 0);
    if slot.Some? && EncodeSize(o.size).Ok? {
      ArmedOnly(control, owners, slot.value, o);
    }
  }

  lemma ClearIsTidy(s: State, owners: Owners, slot: Slot)
    requires Tidy(s, owners)
    ensures Tidy(ClearStep(s, slot), owners - {slot})
  {
    ClearedOnly(s.cached[s.current].dr7, owners, slot);
  }

  lemma RefreshIsTidy(s: State, owners: Owners, tid: int)
    requires Tidy(s, owners) && tid in s.cached
    ensures Tidy(Refreshed(s, tid), owners)
  {
  }

  /** Setting a stop point takes a slot that nobody owns, fails for want of one exactly when all four
      are owned, and otherwise leaves every owned slot showing its owner in every thread. */
  lemma SetKeeps(s: State, owners: Owners, o: Owner)
    requires Inv(s, owners)
    ensures var out := SetStep(s, o.address, o.mode, o.size);
            Inv(out.state, OwnersAfterSet(out, owners, o)) && (out.result.Ok? ==> out.result.value !in owners)
    ensures var result := SetStep(s, o.address, o.mode, o.size).result;
            && (result == Err(NoFreeRegister) <==> forall i: Slot :: i in owners)
            && (result == Err(InvalidSize) <==> !(forall i: Slot :: i in owners) && o.size !in {1, 2, 4, 8})
  {
    SetIsTidy(s, owners, o);
    SetShows(s, owners, o);
  }

  lemma SetShows(s: State, owners: Owners, o: Owner)
    requires Shown(s, owners)
    ensures var out := SetStep(s, o.address, o.mode, o.size);
            Shown(out.state, OwnersAfterSet(out, owners, o)) && (out.result.Ok? ==> out.result.value !in owners)
    ensures var result := SetStep(s, o.address, o.mode, o.size).result;
            && (result == Err(NoFreeRegister) <==> forall i: Slot :: i in owners)
            && (result == Err(InvalidSize) <==> !(forall i: Slot :: i in owners) && o.size !in {1, 2, 4, 8})
  {
    var control := s.cached[s.current].dr7;
    FreeExactly(s, owners);
    match FirstFree(control, 0)
    case None =>
    case Some(slot) =>
      match EncodeSize(o.size)
      case Err(_) => ScratchKeeps(s, owners, slot, o.address);
      case Ok(bits) => ArmKeeps(s, owners, slot, o);
  }

  lemma FreeExactly(s: State, owners: Owners)
    requires Shown(s, owners)
    ensures forall i: Slot :: Free(s.cached[s.current].dr7, i) <==> i !in owners
  {
    forall i: Slot
      ensures Free(s.cached[s.current].dr7, i) <==> i !in owners
    {
      FreeIsDisabled(s.cached[s.current].dr7, i);
      assert Shows(s.cached[s.current], owners);
    }
  }

  lemma ScratchKeeps(s: State, owners: Owners, slot: Slot, address: u64)
    requires Shown(s, owners) && slot !in owners
    ensures Shown(WriteDr(s, s.current, slot, address), owners)
  {
    ShowsScratch(s.cached[s.current], owners, slot, address);
    ShowsScratch(s.kernel[s.pid], owners, slot, address);
  }

  lemma ArmKeeps(s: State, owners: Owners, slot: Slot, o: Owner)
    requires Shown(s, owners) && EncodeSize(o.size).Ok?
    ensures var armed := Armed(s.cached[s.current].dr7, slot, EncodeMode(o.mode), EncodeSize(o.size).value);
            Shown(Everywhere(s, slot, o.address, armed), owners[slot := o])
  {
    var control := s.cached[s.current].dr7;
    var armed := Armed(control, slot, EncodeMode(o.mode), EncodeSize(o.size).value);
    ArmedSlot(control, slot, EncodeMode(o.mode), EncodeSize(o.size).value, slot);
    forall t | t in s.cached
      ensures Shows(Registers(s.cached[t].dr[slot := o.address], armed), owners[slot := o])
    {
      ShowsUpdate(s.cached[t], owners, slot, o, armed);
    }
    ShowsUpdate(s.kernel[s.pid], owners, slot, o, armed);
  }

  lemma ClearShows(s: State, owners: Owners, slot: Slot)
    requires Shown(s, owners)
    ensures Shown(ClearStep(s, slot), owners - {slot})
  {
    var control := s.cached[s.current].dr7;
    var cleared := Cleared(control, slot);
    ClearedSlot(control, slot, slot);
    forall t | t in s.cached
      ensures Shows(Registers(s.cached[t].dr[slot := 0], cleared), owners - {slot})
    {
      ShowsClear(s.cached[t], owners, slot, cleared);
    }
    ShowsClear(s.kernel[s.pid], owners, slot, cleared);
  }

  lemma ClearKeeps(s: State, owners: Owners, slot: Slot)
    requires Inv(s, owners)
    ensures Inv(ClearStep(s, slot), owners - {slot})
  {
    ClearIsTidy(s, owners, slot);
    ClearShows(s, owners, slot);
  }

  /** Reading a stopped thread's registers back keeps the slots in the hands of their owners exactly when
      the thread is the main one or no slot is owned: the other threads were never armed. */
  lemma RefreshExactly(s: State, owners: Owners, tid: int)
    requires Inv(s, owners) && tid in s.cached
    ensures Inv(Refreshed(s, tid), owners) <==> tid == s.pid || owners == map[]
  {
    RefreshIsTidy(s, owners, tid);
    if tid == s.pid {
      RefreshOfMain(s, owners);
    } else if owners == map[] {
      RefreshOfNothing(s, tid);
    } else {
      OwnerNotShown(Refreshed(s, tid).cached[tid], owners);
    }
  }

  lemma RefreshOfMain(s: State, owners: Owners)
    requires Shown(s, owners)
    ensures Shown(Refreshed(s, s.pid), owners)
  {
  }

  lemma RefreshOfNothing(s: State, tid: int)
    requires Inv(s, map[]) && tid in s.cached && tid != s.pid
    ensures Shown(Refreshed(s, tid), map[])
  {
    NoOwnersNoBits(s.cached[s.current].dr7);
    NothingShown(s.kernel[tid]);
  }

  lemma OwnerNotShown(regs: Registers, owners: Owners)
    requires owners != map[] && regs.dr7 == {}
    ensures !Shows(regs, owners)
  {
    HasElement(owners.Keys);
    var i: Slot :| i in owners;
    assert EnableBits(regs.dr7, i) == {};
  }

  lemma NothingShown(regs: Registers)
    requires regs.dr7 == {}
    ensures Shows(regs, map[])
  {
    assert forall i: Slot :: EnableBits({}, i) == {};
  }

  /** After such a read of another thread, with that thread selected, setting a stop point gives slot 0,
      owned or not, and disarms every other slot. */
  lemma SlotIsGivenAgain(s: State, owners: Owners, tid: int, o: Owner)
    requires Inv(s, owners) && tid in s.cached && tid != s.pid && EncodeSize(o.size).Ok?
    ensures var out := SetStep(Refreshed(s, tid).(current := tid), o.address, o.mode, o.size);
            && out.result == Ok(0) && out.state.kernel[s.pid].dr[0] == o.address
            && forall i: Slot :: i != 0 ==> EnableBits(out.state.kernel[s.pid].dr7, i) == {}
  {
    var after := Refreshed(s, tid).(current := tid);
    var control: Bits := {};
    assert after.cached[tid].dr7 == control;
    FreeIsDisabled(control, 0);
    assert EnableBits(control, 0) == {};
    assert Free(control, 0);
    assert FirstFree(control, 0) == Some(0);
    var mode, size := EncodeMode(o.mode), EncodeSize(o.size).value;
    forall i: Slot | i != 0
      ensures EnableBits(Armed(control, 0, mode, size), i) == {}
    {
      ArmedSlot(control, 0, mode, size, i);
      assert EnableBits(control, i) == {};
    }
  }

  /** A tracee starts with no stop point set. */
  lemma ZeroRegistersOwnNothing(s: State)
    requires s.Valid()
    requires forall t :: t in s.cached ==> s.cached[t].dr7 == {} && s.kernel[t].dr7 == {}
    ensures Inv(s, map[])
  {
    assert s.cached[s.pid].dr7 == {};
    assert forall i: Slot :: EnableBits({}, i) == {};
  }

  // ----- Writes that the kernel refuses -----

  /** Which of the two pokes for the current thread the kernel refuses. */
  datatype Refusal = RefusedAddress | RefusedControl

  /** What setting a stop point leaves when it throws at a poke: `registers::write` has changed the cached register
      by then. */
  function SetRefused(s: State, o: Owner, refusal: Refusal): State
    requires s.Valid()
  {
    var regs := s.cached[s.current];
    match FirstFree(regs.dr7, 0)
    case None => s
    case Some(slot) =>
      if refusal.RefusedAddress? then s.(cached := s.cached[s.current := regs.(dr := regs.dr[slot := o.address])])
      else
        match EncodeSize(o.size)
        case Err(_) => WriteDr(s, s.current, slot, o.address)
        case Ok(bits) =>
          var written := WriteDr(s, s.current, slot, o.address);
          var armed := Armed(regs.dr7, slot, EncodeMode(o.mode), bits);
          written.(cached := written.cached[s.current := written.cached[s.current].(dr7 := armed)])
  }

  /** The slots stay in the hands of their owners unless it is the poke of DR7 that is refused: then the cached DR7
      has armed a slot that nobody owns. */
  lemma SetRefusedExactly(s: State, owners: Owners, o: Owner, refusal: Refusal)
    requires Inv(s, owners)
    ensures Inv(SetRefused(s, o, refusal), owners)
       <==> refusal.RefusedAddress? || (forall i: Slot :: i in owners) || o.size !in {1, 2, 4, 8}
  {
    FreeExactly(s, owners);
    var slot := FirstFree(s.cached[s.current].dr7, 0);
    if slot.Some? {
      if refusal.RefusedControl? {
        ControlRefused(s, owners, o, slot.value);
      } else {
        AddressRefused(s, owners, o, slot.value);
      }
    }
  }

  lemma AddressRefused(s: State, owners: Owners, o: Owner, slot: Slot)
    requires Inv(s, owners) && FirstFree(s.cached[s.current].dr7, 0) == Some(slot) && slot !in owners
    ensures Inv(SetRefused(s, o, RefusedAddress), owners)
  {
    ShowsScratch(s.cached[s.current], owners, slot, o.address);
  }

  lemma ControlRefused(s: State, owners: Owners, o: Owner, slot: Slot)
    requires Inv(s, owners) && FirstFree(s.cached[s.current].dr7, 0) == Some(slot) && slot !in owners
    ensures Inv(SetRefused(s, o, RefusedControl), owners) <==> EncodeSize(o.size).Err?
  {
    if EncodeSize(o.size).Err? {
      ScratchKeeps(s, owners, slot, o.address);
    } else {
      var armed := Armed(s.cached[s.current].dr7, slot, EncodeMode(o.mode), EncodeSize(o.size).value);
      ArmedSlot(s.cached[s.current].dr7, slot, EncodeMode(o.mode), EncodeSize(o.size).value, slot);
      assert 0 in EnableBits(armed, slot);
      assert !Shows(SetRefused(s, o, RefusedControl).cached[s.current], owners);
    }
  }

  // ----- Runs -----

  datatype Op = Set(owner: Owner) | Clear(slot: Slot) | Select(tid: int) | Stop(tid: int)

  datatype Run = Run(state: State, owners: Owners)

  /** One operation; `Stop` is a stop of a thread, after which its registers are read. */
  function Step(r: Run, op: Op): (r': Run)
    requires r.state.Valid()
    ensures r'.state.Valid()
  {
    match op
    case Set(o) =>
      var out := SetStep(r.state, o.address, o.mode, o.size);
      Run(out.state, OwnersAfterSet(out, r.owners, o))
    case Clear(slot) => Run(ClearStep(r.state, slot), r.owners - {slot})
    case Select(tid) => if tid in r.state.cached then r.(state := r.state.(current := tid)) else r
    case Stop(tid) => if tid in r.state.cached then r.(state := Refreshed(r.state, tid)) else r
  }

  /** Another thread than the main one stops while a slot is owned. */
  predicate Loses(r: Run, op: Op) {
    op.Stop? && op.tid in r.state.cached && op.tid != r.state.pid && r.owners != map[]
  }

  ghost predicate IsRun(states: seq<Run>, ops: seq<Op>) {
    && |states| == |ops| + 1
    && forall k :: 0 <= k < |ops| ==> states[k].state.Valid() && states[k + 1] == Step(states[k], ops[k])
  }

  ghost predicate Intact(r: Run) {
    Inv(r.state, r.owners)
  }

  lemma StepExactly(r: Run, op: Op)
    requires Intact(r)
    ensures Intact(Step(r, op)) <==> !Loses(r, op)
  {
    match op
    case Set(o) => SetKeeps(r.state, r.owners, o);
    case Clear(slot) => ClearKeeps(r.state, r.owners, slot);
    case Select(_) =>
    case Stop(tid) =>
      if tid in r.state.cached {
        RefreshExactly(r.state, r.owners, tid);
      }
  }

  /** Over every run of set, clear, thread selection and stops, each live slot has one owner and shows that
      owner's address, mode and size, in all states, if and only if no thread but the main one ever stops
      while a slot is owned. */
  lemma {:induction false} EveryRunExactly(states: seq<Run>, ops: seq<Op>)
    requires IsRun(states, ops) && Intact(states[0])
    ensures (forall k :: 0 <= k <= |ops| ==> Intact(states[k])) <==> (forall k :: 0 <= k < |ops| ==> !Loses(states[k], ops[k]))
  {
    if forall k :: 0 <= k <= |ops| ==> Intact(states[k]) {
      forall k | 0 <= k < |ops|
        ensures !Loses(states[k], ops[k])
      {
        assert Intact(states[k]) && Intact(states[k + 1]);
        StepExactly(states[k], ops[k]);
      }
    }
    if forall k :: 0 <= k < |ops| ==> !Loses(states[k], ops[k]) {
      forall k | 0 <= k <= |ops|
        ensures Intact(states[k])
      {
        NothingLost(states, ops, k);
      }
    }
  }

  lemma {:induction false} NothingLost(states: seq<Run>, ops: seq<Op>, k: nat)
    requires IsRun(states, ops) && Intact(states[0]) && k <= |ops|
    requires forall j :: 0 <= j < k ==> !Loses(states[j], ops[j])
    ensures Intact(states[k])
  {
    if k > 0 {
      NothingLost(states, ops, k - 1);
      StepExactly(states[k - 1], ops[k - 1]);
    }
  }

  /** The threads are the same, and the kernel's registers of all but the main one. */
  predicate SameOthers(a: State, b: State) {
    && a.kernel.Keys == b.kernel.Keys && a.pid == b.pid
    && forall t :: t in a.kernel && t != a.pid ==> a.kernel[t] == b.kernel[t]
  }

  lemma StepIsTidy(r: Run, op: Op)
    requires Tidy(r.state, r.owners)
    ensures Tidy(Step(r, op).state, Step(r, op).owners)
  {
    match op
    case Set(o) => SetIsTidy(r.state, r.owners, o);
    case Clear(slot) => ClearIsTidy(r.state, r.owners, slot);
    case Select(_) =>
    case Stop(_) =>
  }

  lemma StepSparesOthers(r: Run, op: Op)
    requires r.state.Valid()
    ensures SameOthers(r.state, Step(r, op).state)
  {
  }

  /** Whatever happens, no run arms a thread in the kernel but the main one. */
  lemma {:induction false} OtherThreadsNeverArmed(states: seq<Run>, ops: seq<Op>, k: nat)
    requires IsRun(states, ops) && Tidy(states[0].state, states[0].owners) && k <= |ops|
    ensures Tidy(states[k].state, states[k].owners) && SameOthers(states[0].state, states[k].state)
  {
    if k > 0 {
      OtherThreadsNeverArmed(states, ops, k - 1);
      StepIsTidy(states[k - 1], ops[k - 1]);
      StepSparesOthers(states[k - 1], ops[k - 1]);
    }
  }

  /** All threads of the tracee see the stop points, at any point of any run, stops of all threads
      included, if and only if none is set or the tracee has one thread. */
  lemma ArmedInEveryThreadExactly(states: seq<Run>, ops: seq<Op>, k: nat)
    requires IsRun(states, ops) && Intact(states[0]) && k <= |ops|
    ensures var end := states[k];
            (forall t :: t in end.state.kernel ==> Shows(end.state.kernel[t], end.owners))
            <==> (end.owners == map[] || end.state.kernel.Keys == {end.state.pid})
  {
    OtherThreadsNeverArmed(states, ops, k);
    var end := states[k].state;
    if states[k].owners == map[] {
      NoOwnersNoBits(end.kernel[end.pid].dr7);
      forall t | t in end.kernel ensures Shows(end.kernel[t], map[]) {
        NothingShown(end.kernel[t]);
      }
    } else if end.kernel.Keys == {end.pid} {
      OneThreadLosesNothing(states, ops, k);
    } else {
      var t :| t in end.kernel && t != end.pid;
      OwnerNotShown(end.kernel[t], states[k].owners);
    }
  }

  lemma OneThreadLosesNothing(states: seq<Run>, ops: seq<Op>, k: nat)
    requires IsRun(states, ops) && Intact(states[0]) && k <= |ops|
    requires states[k].state.kernel.Keys == {states[k].state.pid}
    ensures Intact(states[k])
  {
    OtherThreadsNeverArmed(states, ops, k);
    forall j | 0 <= j < k
      ensures !Loses(states[j], ops[j])
    {
      OtherThreadsNeverArmed(states, ops, j);
    }
    NothingLost(states, ops, k);
  }
}
