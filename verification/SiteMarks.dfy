/** Which breakpoint sites there are and which are enabled, as the operations on them and their results say. */
module SiteMarks {
  import opened Words
  import opened TraceeMemory
  import opened DebugRegisters
  import opened HardwareStops
  import opened Breakpoints
  import opened BreakpointRuns

  // ----- One call -----

  /** The call is about site `i` alone, and leaves it its address and its kind. */
  predicate OnlySite(w: World, after: World, i: nat)
    requires i < |w.sites|
  {
    && |after.sites| == |w.sites|
    && after.sites[i].address == w.sites[i].address && after.sites[i].hardware == w.sites[i].hardware
    && forall j :: 0 <= j < |w.sites| && j != i ==> after.sites[j] == w.sites[j]
  }

  /** Memory is the same but for the byte of a software site. */
  predicate OnlyByte(w: World, after: World, s: Site) {
    && after.mem.Keys == w.mem.Keys
    && forall a :: a in w.mem && (s.hardware || a != s.address) ==> after.mem[a] == w.mem[a]
  }

  /** Enabling succeeds if and only if the site is enabled already, or the eight bytes of a software site are mapped, or
      some slot is free for a hardware site. Then the site is enabled, and a software one has int3 (0xcc) in
      memory; otherwise neither sites nor memory change. */
  lemma EnableExactly(w: World, i: nat, orig: Memory)
    requires OverlayHolds(w, orig) && i < |w.sites|
    ensures var done, s := EnableAt(w, i), w.sites[i];
            && OnlySite(w, done.world, i) && OnlyByte(w, done.world, s)
            && (done.result.Ok? ==> done.world.sites[i].enabled)
            && (done.result.Ok? && !s.hardware ==> s.address in done.world.mem && done.world.mem[s.address] == 0xcc)
            && (done.result.Err? ==> done.world.sites == w.sites && done.world.mem == w.mem)
            && (done.result.Ok? <==> s.enabled || if s.hardware then exists slot: Slot :: EnableBits(w.debug.cached[w.debug.current].dr7, slot) == {}
                                                  else Mapped(w.mem, s.address, 8))
  {
    var s := w.sites[i];
    assert w.sites[i := s] == w.sites;
    if s.enabled {
      assert TrapAt(w.sites, s.address) || s.hardware;
    } else if s.hardware {
      FreeSlotExactly(w.debug);
    } else if Mapped(w.mem, s.address, 8) {
      PokeLowByte(w.mem, s.address, INT3);
    }
  }

  lemma FreeSlotExactly(debug: State)
    requires debug.Valid()
    ensures FirstFree(debug.cached[debug.current].dr7, 0).Some? <==> exists slot: Slot :: EnableBits(debug.cached[debug.current].dr7, slot) == {}
  {
    var control := debug.cached[debug.current].dr7;
    forall slot: Slot
      ensures Free(control, slot) <==> EnableBits(control, slot) == {}
    {
      FreeIsDisabled(control, slot);
    }
  }

  /** With the slots in the hands of their owners, a hardware site finds none if and only if all four are owned. */
  lemma HardwareEnableExactly(w: World, i: nat, owners: Owners)
    requires Registered(w, owners) && i < |w.sites| && w.sites[i].hardware && !w.sites[i].enabled
    ensures EnableAt(w, i).result.Err? <==> forall slot: Slot :: slot in owners
  {
    SetKeeps(w.debug, owners, Owner(w.sites[i].address, Execute, 1));
  }

  /** Disabling succeeds unless the word of an enabled software site is not mapped. Then the site is disabled, and a
      software one has the original byte back. */
  lemma DisableExactly(w: World, i: nat, orig: Memory)
    requires OverlayHolds(w, orig) && i < |w.sites|
    ensures var done, s := DisableAt(w, i), w.sites[i];
            && OnlySite(w, done.world, i) && OnlyByte(w, done.world, s)
            && (done.result.Ok? ==> !done.world.sites[i].enabled)
            && (done.result.Ok? && !s.hardware && s.enabled ==> done.world.mem[s.address] == orig[s.address])
            && (done.result.Err? ==> done.world.sites == w.sites && done.world.mem == w.mem)
            && (done.result.Ok? <==> !s.enabled || s.hardware || Mapped(w.mem, s.address, 8))
  {
    var s := w.sites[i];
    assert w.sites[i := s] == w.sites;
    if s.IsTrap() && Mapped(w.mem, s.address, 8) {
      PokeLowByte(w.mem, s.address, s.saved);
    }
  }

  // ----- Marks -----

  datatype Mark = Mark(hardware: bool, enabled: bool)

  type Marks = map<int, Mark>

  /** The marks are those of the sites. */
  predicate AreMarks(sites: seq<Site>, m: Marks) {
    && (forall i :: 0 <= i < |sites| ==> sites[i].address in m && m[sites[i].address] == Mark(sites[i].hardware, sites[i].enabled))
    && (forall a :: a in m ==> exists i :: 0 <= i < |sites| && sites[i].address == a)
  }

  /** What an operation makes of them, given whether it succeeds: creating and removing change just their own site, and
      enabling and disabling its mark; a step-over lifts the site at the pc only when a call to the kernel fails. */
  function MarksAfter(m: Marks, op: EngineOp, ok: bool): Marks {
    match op
    case CreateOp(address, hardware) => if ok then m[address := Mark(hardware, false)] else m
    case EnableOp(address) => if ok && address in m then m[address := m[address].(enabled := true)] else m
    case DisableOp(address) => if ok && address in m then m[address := m[address].(enabled := false)] else m
    case RemoveOp(address) => if ok then m - {address} else m
    case StepOverOp(pc, _, failure) => if failure.Some? && pc in m then m[pc := m[pc].(enabled := false)] else m
    case _ => m
  }

  /** The result of an operation; one at an address without a site fails. */
  function ResultOf(w: World, op: EngineOp): Result<()>
    requires Known(w)
  {
    match op
    case CreateOp(address, hardware) => Create(w, address, hardware).result
    case StepOverOp(pc, stores, failure) => StepOver(w, pc, stores, failure).result
    case EnableOp(address) =>
      (match FindAddress(w.sites, address, 0) case None => Err(NotFound) case Some(i) => EnableAt(w, i).result)
    case DisableOp(address) =>
      (match FindAddress(w.sites, address, 0) case None => Err(NotFound) case Some(i) => DisableAt(w, i).result)
    case RemoveOp(address) =>
      (match FindAddress(w.sites, address, 0) case None => Err(NotFound) case Some(i) => RemoveAt(w, i).result)
    case _ => Ok(())
  }

  lemma MarkFound(sites: seq<Site>, m: Marks, address: u64)
    requires AreMarks(sites, m)
    ensures FindAddress(sites, address, 0).Some? <==> address in m
  {
  }

  lemma MarkSet(sites: seq<Site>, m: Marks, i: nat, after: seq<Site>)
    requires i < |sites| && AreMarks(sites, m) && Distinct(sites) && |after| == |sites|
    requires after[i].address == sites[i].address && after[i].hardware == sites[i].hardware
    requires forall j :: 0 <= j < |sites| && j != i ==> after[j] == sites[j]
    ensures AreMarks(after, m[sites[i].address := Mark(sites[i].hardware, after[i].enabled)])
  {
    forall a | a in m
      ensures exists j :: 0 <= j < |after| && after[j].address == a
    {
      var j :| 0 <= j < |sites| && sites[j].address == a;
      assert after[j].address == a;
    }
  }

  lemma MarkKept(sites: seq<Site>, m: Marks, i: nat, after: seq<Site>)
    requires i < |sites| && AreMarks(sites, m) && Distinct(sites) && |after| == |sites| && after[i].enabled == sites[i].enabled
    requires after[i].address == sites[i].address && after[i].hardware == sites[i].hardware
    requires forall j :: 0 <= j < |sites| && j != i ==> after[j] == sites[j]
    ensures AreMarks(after, m)
  {
    MarkSet(sites, m, i, after);
    assert m[sites[i].address := Mark(sites[i].hardware, after[i].enabled)] == m;
  }

  lemma MarkAdded(sites: seq<Site>, m: Marks, s: Site)
    requires AreMarks(sites, m) && s.address !in m
    ensures AreMarks(sites + [s], m[s.address := Mark(s.hardware, s.enabled)])
  {
    var after := sites + [s];
    assert after[|sites|] == s;
    forall a | a in m
      ensures exists j :: 0 <= j < |after| && after[j].address == a
    {
      var j :| 0 <= j < |sites| && sites[j].address == a;
      assert after[j] == sites[j];
    }
  }

  lemma MarkRemoved(sites: seq<Site>, m: Marks, i: nat)
    requires i < |sites| && AreMarks(sites, m) && Distinct(sites)
    ensures AreMarks(Without(sites, i), m - {sites[i].address})
  {
    var after := Without(sites, i);
    forall a | a in m - {sites[i].address}
      ensures exists j :: 0 <= j < |after| && after[j].address == a
    {
      var j :| 0 <= j < |sites| && sites[j].address == a;
      StillThere(sites, i, j);
    }
  }

  // ----- Runs -----

  /** The words of the enabled software sites are mapped. */
  predicate WordsMapped(w: World) {
    forall i :: 0 <= i < |w.sites| && w.sites[i].IsTrap() ==> Mapped(w.mem, w.sites[i].address, 8)
  }

  ghost predicate Sane(r: Trace) {
    GoodMemory(r) && WordsMapped(r.world)
  }

  lemma SameWords(w: World, after: World, i: nat)
    requires WordsMapped(w) && i < |w.sites| && OnlySite(w, after, i) && after.mem.Keys == w.mem.Keys
    requires after.sites[i].IsTrap() ==> w.sites[i].IsTrap() || Mapped(w.mem, w.sites[i].address, 8)
    ensures WordsMapped(after)
  {
    forall j | 0 <= j < |after.sites| && after.sites[j].IsTrap()
      ensures Mapped(after.mem, after.sites[j].address, 8)
    {
      assert j != i ==> after.sites[j] == w.sites[j];
      assert Mapped(w.mem, w.sites[j].address, 8);
    }
  }

  lemma EnableMarks(w: World, i: nat, orig: Memory, m: Marks)
    requires OverlayHolds(w, orig) && WordsMapped(w) && i < |w.sites| && AreMarks(w.sites, m)
    ensures var done, s := EnableAt(w, i), w.sites[i];
            && WordsMapped(done.world)
            && AreMarks(done.world.sites, if done.result.Ok? then m[s.address := Mark(s.hardware, true)] else m)
  {
    EnableExactly(w, i, orig);
    var done := EnableAt(w, i);
    SameWords(w, done.world, i);
    MarkSet(w.sites, m, i, done.world.sites);
  }

  lemma DisableMarks(w: World, i: nat, orig: Memory, m: Marks)
    requires OverlayHolds(w, orig) && WordsMapped(w) && i < |w.sites| && AreMarks(w.sites, m)
    ensures var done, s := DisableAt(w, i), w.sites[i];
            && done.result.Ok? && WordsMapped(done.world) && !done.world.sites[i].enabled && OnlySite(w, done.world, i)
            && AreMarks(done.world.sites, m[s.address := Mark(s.hardware, false)])
  {
    DisableExactly(w, i, orig);
    var done := DisableAt(w, i);
    assert w.sites[i].IsTrap() ==> Mapped(w.mem, w.sites[i].address, 8);
    SameWords(w, done.world, i);
    MarkSet(w.sites, m, i, done.world.sites);
  }

  lemma ClearedIsFree(control: Bits, slot: Slot)
    ensures EnableBits(Cleared(control, slot), slot) == {}
  {
    ClearedBits(control, slot, slot * 2);
    ClearedBits(control, slot, slot * 2 + 1);
  }

  /** What has been lifted can be put back. */
  lemma LiftedCanBeEnabled(w: World, i: nat, orig: Memory, stores: Memory)
    requires OverlayHolds(w, orig) && WordsMapped(w) && i < |w.sites| && w.sites[i].enabled
    ensures var off := DisableAt(w, i);
            off.result.Ok? && i < |off.world.sites| && off.world.debug.Valid()
            && EnableAt(off.world.(mem := TraceeStores(off.world.mem, stores)), i).result.Ok?
  {
    var s := w.sites[i];
    DisableExactly(w, i, orig);
    assert s.IsTrap() ==> Mapped(w.mem, s.address, 8);
    var off := DisableAt(w, i).world;
    if s.hardware {
      ClearedIsFree(w.debug.cached[w.debug.current].dr7, s.slot);
      FreeSlotExactly(off.debug);
      assert EnableBits(off.debug.cached[off.debug.current].dr7, s.slot) == {};
    } else {
      assert Mapped(TraceeStores(off.mem, stores), s.address, 8);
    }
  }

  /** While the tracee runs, the site is lifted. */
  lemma LiftedMarks(w: World, i: nat, orig: Memory, stores: Memory, m: Marks, ran: World)
    requires OverlayHolds(w, orig) && WordsMapped(w) && i < |w.sites| && w.sites[i].enabled && AreMarks(w.sites, m)
    requires var off := DisableAt(w, i).world; ran == off.(mem := TraceeStores(off.mem, stores)) && Spares(stores, off.sites)
    ensures DisableAt(w, i).result.Ok? && OverlayHolds(ran, TraceeStores(orig, stores)) && WordsMapped(ran) && OnlySite(w, ran, i)
    ensures AreMarks(ran.sites, m[w.sites[i].address := Mark(w.sites[i].hardware, false)]) && EnableAt(ran, i).result.Ok?
  {
    DisableMarks(w, i, orig, m);
    DisableOverlays(w, i, orig);
    LiftedCanBeEnabled(w, i, orig, stores);
    StoresOverlay(DisableAt(w, i).world, stores, orig);
    StoresKeepWords(DisableAt(w, i).world, stores);
  }

  lemma StepOverIs(w: World, i: nat, pc: u64, stores: Memory, failure: Option<Error>)
    requires Known(w) && FindAddress(w.sites, pc, 0) == Some(i) && w.sites[i].enabled && DisableAt(w, i).result.Ok?
    ensures var off := DisableAt(w, i).world;
            var ran := off.(mem := TraceeStores(off.mem, stores));
            && i < |ran.sites| && ran.debug.Valid()
            && StepOver(w, pc, stores, failure) == if failure.Some? then Done(Err(failure.value), ran) else EnableAt(ran, i)
  {
    DisableKnown(w, i);
  }

  lemma PutBackMarks(ran: World, i: nat, orig: Memory, m: Marks, s: Site)
    requires OverlayHolds(ran, orig) && WordsMapped(ran) && i < |ran.sites| && EnableAt(ran, i).result.Ok?
    requires ran.sites[i].address == s.address && ran.sites[i].hardware == s.hardware
    requires s.address in m && m[s.address] == Mark(s.hardware, true) && AreMarks(ran.sites, m[s.address := Mark(s.hardware, false)])
    ensures WordsMapped(EnableAt(ran, i).world) && AreMarks(EnableAt(ran, i).world.sites, m)
  {
    EnableMarks(ran, i, orig, m[s.address := Mark(s.hardware, false)]);
    assert m[s.address := Mark(s.hardware, false)][s.address := Mark(s.hardware, true)] == m;
  }

  lemma StepOverMarks(w: World, i: nat, orig: Memory, pc: u64, stores: Memory, failure: Option<Error>, m: Marks)
    requires OverlayHolds(w, orig) && WordsMapped(w) && AreMarks(w.sites, m)
    requires FindAddress(w.sites, pc, 0) == Some(i) && w.sites[i].enabled && Spares(stores, DisableAt(w, i).world.sites)
    ensures var done := StepOver(w, pc, stores, failure);
            && WordsMapped(done.world) && (done.result.Ok? <==> failure.None?)
            && AreMarks(done.world.sites, if failure.Some? then m[pc := Mark(w.sites[i].hardware, false)] else m)
  {
    var off := DisableAt(w, i).world;
    var ran := off.(mem := TraceeStores(off.mem, stores));
    LiftedMarks(w, i, orig, stores, m, ran);
    StepOverIs(w, i, pc, stores, failure);
    if failure.None? {
      PutBackMarks(ran, i, TraceeStores(orig, stores), m, w.sites[i]);
    }
  }

  lemma StoresKeepWords(w: World, stores: Memory)
    requires WordsMapped(w)
    ensures WordsMapped(w.(mem := TraceeStores(w.mem, stores)))
  {
    var mem := TraceeStores(w.mem, stores);
    forall i | 0 <= i < |w.sites| && w.sites[i].IsTrap()
      ensures Mapped(mem, w.sites[i].address, 8)
    {
      assert Mapped(w.mem, w.sites[i].address, 8);
    }
  }

  lemma RemoveMarks(w: World, i: nat, orig: Memory, m: Marks)
    requires OverlayHolds(w, orig) && WordsMapped(w) && i < |w.sites| && AreMarks(w.sites, m)
    ensures var done := RemoveAt(w, i);
            done.result.Ok? && WordsMapped(done.world) && AreMarks(done.world.sites, m - {w.sites[i].address})
  {
    DisableMarks(w, i, orig, m);
    DisableOverlays(w, i, orig);
    var off := DisableAt(w, i).world;
    MarkRemoved(off.sites, m[w.sites[i].address := Mark(w.sites[i].hardware, false)], i);
    assert m[w.sites[i].address := Mark(w.sites[i].hardware, false)] - {w.sites[i].address} == m - {w.sites[i].address};
    assert RemoveAt(w, i).world.sites == Without(off.sites, i);
    FewerWords(off, i);
  }

  lemma FewerWords(w: World, i: nat)
    requires WordsMapped(w) && i < |w.sites|
    ensures WordsMapped(w.(sites := Without(w.sites, i)))
  {
  }

  lemma CreateMarks(w: World, address: u64, hardware: bool, m: Marks)
    requires WordsMapped(w) && AreMarks(w.sites, m)
    ensures var done := Create(w, address, hardware);
            && WordsMapped(done.world) && (done.result.Ok? <==> address !in m)
            && AreMarks(done.world.sites, if done.result.Ok? then m[address := Mark(hardware, false)] else m)
  {
    MarkFound(w.sites, m, address);
    var s := Site(address, hardware, false, 0, -1);
    if address !in m {
      MarkAdded(w.sites, m, s);
      forall j | 0 <= j < |w.sites + [s]| && (w.sites + [s])[j].IsTrap()
        ensures Mapped(w.mem, (w.sites + [s])[j].address, 8)
      {
        assert j < |w.sites|;
      }
    }
  }

  /** When an operation succeeds, by the marks: a site is created where there is none; it is enabled where there is one,
      if it is enabled already, or its eight bytes are mapped, or a slot is free for a hardware site; it is disabled and
      removed where there is one; and a step-over fails when a call to the kernel does at an enabled site. */
  predicate Succeeds(w: World, m: Marks, op: EngineOp)
    requires w.debug.Valid()
  {
    match op
    case CreateOp(address, _) => address !in m
    case EnableOp(address) =>
      && address in m
      && (m[address].enabled
          || if m[address].hardware then exists slot: Slot :: EnableBits(w.debug.cached[w.debug.current].dr7, slot) == {}
             else Mapped(w.mem, address, 8))
    case DisableOp(address) => address in m
    case RemoveOp(address) => address in m
    case StepOverOp(pc, _, failure) => failure.Some? && pc in m ==> !m[pc].enabled
    case _ => true
  }

  /** Any operation on the collection. */
  lemma OpMarks(r: Trace, op: EngineOp, m: Marks)
    requires Sane(r) && Fair(r, op) && AreMarks(r.world.sites, m)
    ensures WordsMapped(StepEngine(r, op).world)
    ensures ResultOf(r.world, op).Ok? <==> Succeeds(r.world, m, op)
    ensures AreMarks(StepEngine(r, op).world.sites, MarksAfter(m, op, ResultOf(r.world, op).Ok?))
  {
    match op
    case CreateOp(address, hardware) => CreateMarks(r.world, address, hardware, m);
    case TraceeOp(stores) => StoresKeepWords(r.world, stores);
    case EnableOp(address) =>
      MarkFound(r.world.sites, m, address);
      if address in m {
        EnableAtMarks(r, FindAddress(r.world.sites, address, 0).value, m);
      }
    case DisableOp(address) =>
      MarkFound(r.world.sites, m, address);
      if address in m {
        DisableMarks(r.world, FindAddress(r.world.sites, address, 0).value, r.orig, m);
      }
    case RemoveOp(address) =>
      MarkFound(r.world.sites, m, address);
      if address in m {
        RemoveMarks(r.world, FindAddress(r.world.sites, address, 0).value, r.orig, m);
      }
    case StepOverOp(pc, stores, failure) =>
      MarkFound(r.world.sites, m, pc);
      StepOverAgrees(r, pc, stores, failure);
      StepOverOpMarks(r, pc, stores, failure, m);
    case _ =>
  }

  lemma EnableAtMarks(r: Trace, i: nat, m: Marks)
    requires Sane(r) && i < |r.world.sites| && AreMarks(r.world.sites, m) && FindAddress(r.world.sites, r.world.sites[i].address, 0) == Some(i)
    ensures var op, done := EnableOp(r.world.sites[i].address), EnableAt(r.world, i);
            && WordsMapped(done.world) && (done.result.Ok? <==> Succeeds(r.world, m, op))
            && AreMarks(done.world.sites, MarksAfter(m, op, done.result.Ok?))
  {
    EnableMarks(r.world, i, r.orig, m);
    EnableExactly(r.world, i, r.orig);
  }

  lemma StepOverOpMarks(r: Trace, pc: u64, stores: Memory, failure: Option<Error>, m: Marks)
    requires Sane(r) && Fair(r, StepOverOp(pc, stores, failure)) && AreMarks(r.world.sites, m)
    ensures var op, done := StepOverOp(pc, stores, failure), StepOver(r.world, pc, stores, failure);
            && WordsMapped(done.world) && (done.result.Ok? <==> Succeeds(r.world, m, op))
            && AreMarks(done.world.sites, MarksAfter(m, op, done.result.Ok?))
  {
    MarkFound(r.world.sites, m, pc);
    var found := FindAddress(r.world.sites, pc, 0);
    if found.Some? {
      if r.world.sites[found.value].enabled {
        StepOverMarks(r.world, found.value, r.orig, pc, stores, failure, m);
        assert m[pc] == Mark(r.world.sites[found.value].hardware, true);
      } else {
        assert m[pc] == Mark(r.world.sites[found.value].hardware, false);
        assert m[pc := m[pc].(enabled := false)] == m;
      }
    }
  }

  /** The marks after the first `k` operations of a run, of which `oks` says whether they succeed. */
  function MarksOver(m: Marks, ops: seq<EngineOp>, oks: seq<bool>, k: nat): Marks
    requires k <= |ops| == |oks|
  {
    if k == 0 then m else MarksAfter(MarksOver(m, ops, oks, k - 1), ops[k - 1], oks[k - 1])
  }

  ghost predicate HasResults(states: seq<Trace>, ops: seq<EngineOp>, oks: seq<bool>)
    requires IsEngineRun(states, ops)
  {
    |oks| == |ops| && forall k :: 0 <= k < |ops| ==> oks[k] == ResultOf(states[k].world, ops[k]).Ok?
  }

  /** Over every fair run, the sites, their kinds and which are enabled follow from the operations and their results
      alone; an operation succeeds exactly when the marks before it and the state of memory and slots say so; and
      memory is the original with int3 (0xcc) at the software sites marked as enabled. */
  lemma {:induction false} RunsFollowTheMarks(states: seq<Trace>, ops: seq<EngineOp>, oks: seq<bool>, m: Marks, k: nat)
    requires IsEngineRun(states, ops) && HasResults(states, ops, oks) && k <= |ops|
    requires Sane(states[0]) && AreMarks(states[0].world.sites, m)
    ensures Sane(states[k]) && AreMarks(states[k].world.sites, MarksOver(m, ops, oks, k))
    ensures k < |ops| ==> states[k].world.debug.Valid() && (oks[k] <==> Succeeds(states[k].world, MarksOver(m, ops, oks, k), ops[k]))
    ensures MemoryShows(states[k].world.mem, states[k].orig, MarksOver(m, ops, oks, k))
  {
    if k > 0 {
      RunsFollowTheMarks(states, ops, oks, m, k - 1);
      var before := states[k - 1];
      OpMarks(before, ops[k - 1], MarksOver(m, ops, oks, k - 1));
      StepOverlays(before, ops[k - 1]);
    }
    if k < |ops| {
      OpMarks(states[k], ops[k], MarksOver(m, ops, oks, k));
    }
    MarksShow(states[k].world, states[k].orig, MarksOver(m, ops, oks, k));
  }

  predicate MemoryShows(mem: Memory, orig: Memory, m: Marks) {
    mem.Keys == orig.Keys && forall a :: a in mem ==> mem[a] == if a in m && m[a] == Mark(false, true) then 0xcc else orig[a]
  }

  lemma MarksShow(w: World, orig: Memory, m: Marks)
    requires OverlayHolds(w, orig) && AreMarks(w.sites, m)
    ensures MemoryShows(w.mem, orig, m)
  {
    forall a | a in w.mem
      ensures TrapAt(w.sites, a) <==> a in m && m[a] == Mark(false, true)
    {
      if a in m {
        var i :| 0 <= i < |w.sites| && w.sites[i].address == a;
        assert m[a] == Mark(w.sites[i].hardware, w.sites[i].enabled);
      }
    }
  }

  /** A run starts with no site, and no mark. */
  lemma StartHasNoMarks(mem: Memory, debug: State)
    requires debug.Valid()
    ensures var r := Trace(World(mem, debug, []), mem, map[]); Sane(r) && AreMarks(r.world.sites, map[])
  {
  }
}
