/** Whole runs of the breakpoint engine: what every interleaving of its operations with the tracee's own
    execution keeps, and what reads and writes of memory see of it. */
module BreakpointRuns {
  import opened Words
  import opened TraceeMemory
  import opened HardwareStops
  import opened Breakpoints

  // ----- Creation and removal -----

  lemma CreateOverlays(w: World, address: u64, hardware: bool, orig: Memory)
    requires OverlayHolds(w, orig)
    ensures OverlayHolds(Create(w, address, hardware).world, orig)
  {
    CreateKnown(w, address, hardware);
    if FindAddress(w.sites, address, 0).None? {
      var sites := w.sites + [Site(address, hardware, false, 0, -1)];
      forall a
        ensures TrapAt(sites, a) == TrapAt(w.sites, a)
      {
        if i :| 0 <= i < |w.sites| && w.sites[i].IsTrap() && w.sites[i].address == a {
          assert sites[i] == w.sites[i];
        }
      }
    }
  }

  lemma CreateRegisters(w: World, address: u64, hardware: bool, owners: Owners)
    requires Registered(w, owners)
    ensures Registered(Create(w, address, hardware).world, owners)
  {
    CreateOwned(w.sites, Site(address, hardware, false, 0, -1), owners);
  }

  lemma CreateOwned(sites: seq<Site>, last: Site, owners: Owners)
    requires Owned(sites, owners) && !last.enabled
    ensures Owned(sites + [last], owners)
  {
    var more := sites + [last];
    assert forall j :: 0 <= j < |sites| ==> more[j] == sites[j];
    assert !more[|sites|].enabled;
    forall k | k in owners
      ensures exists j :: 0 <= j < |more| && more[j].IsLive() && more[j].slot == k
    {
      var j :| 0 <= j < |sites| && sites[j].IsLive() && sites[j].slot == k;
      assert more[j].IsLive();
    }
  }

  function Without(sites: seq<Site>, i: nat): (rest: seq<Site>)
    requires i < |sites|
    ensures |rest| == |sites| - 1
    ensures forall j :: 0 <= j < |rest| ==> rest[j] == sites[if j < i then j else j + 1]
  {
    sites[..i] + sites[i + 1..]
  }

  lemma StillThere(sites: seq<Site>, i: nat, j: nat)
    requires i < |sites| && j < |sites| && i != j
    ensures var k := if j < i then j else j - 1; k < |Without(sites, i)| && Without(sites, i)[k] == sites[j]
  {
  }

  /** Erasing a disabled site. */
  lemma EraseOverlays(w: World, i: nat, orig: Memory)
    requires OverlayHolds(w, orig) && i < |w.sites| && !w.sites[i].enabled
    ensures OverlayHolds(w.(sites := Without(w.sites, i)), orig)
  {
    var sites := Without(w.sites, i);
    forall a
      ensures TrapAt(sites, a) == TrapAt(w.sites, a)
    {
      if j :| 0 <= j < |w.sites| && w.sites[j].IsTrap() && w.sites[j].address == a {
        StillThere(w.sites, i, j);
      }
    }
  }

  lemma EraseOwned(sites: seq<Site>, i: nat, owners: Owners)
    requires Owned(sites, owners) && i < |sites| && !sites[i].enabled
    ensures Owned(Without(sites, i), owners)
  {
    var rest := Without(sites, i);
    forall k | k in owners
      ensures exists j :: 0 <= j < |rest| && rest[j].IsLive() && rest[j].slot == k
    {
      var j :| 0 <= j < |sites| && sites[j].IsLive() && sites[j].slot == k;
      StillThere(sites, i, j);
    }
  }

  lemma DisableDisables(w: World, i: nat)
    requires Known(w) && i < |w.sites|
    ensures var off := DisableAt(w, i); |off.world.sites| == |w.sites| && (off.result.Ok? ==> !off.world.sites[i].enabled)
  {
  }

  lemma RemoveOverlays(w: World, i: nat, orig: Memory)
    requires OverlayHolds(w, orig) && i < |w.sites|
    ensures OverlayHolds(RemoveAt(w, i).world, orig)
  {
    DisableOverlays(w, i, orig);
    DisableDisables(w, i);
    var off := DisableAt(w, i);
    if off.result.Ok? {
      EraseOverlays(off.world, i, orig);
    }
  }

  lemma RemoveRegisters(w: World, i: nat, owners: Owners)
    requires Known(w) && Registered(w, owners) && i < |w.sites|
    ensures Registered(RemoveAt(w, i).world, OwnersAfter(w, DisableAt(w, i).world, i, owners))
  {
    DisableRegisters(w, i, owners);
    DisableDisables(w, i);
    var off := DisableAt(w, i);
    if off.result.Ok? {
      EraseOwned(off.world.sites, i, OwnersAfter(w, off.world, i, owners));
    }
  }

  // ----- The tracee's own stores -----

  /** The tracee leaves the bytes of its breakpoints alone. */
  predicate Spares(stores: Memory, sites: seq<Site>) {
    forall a :: a in stores ==> !TrapAt(sites, a)
  }

  lemma StoresOverlay(w: World, stores: Memory, orig: Memory)
    requires OverlayHolds(w, orig) && Spares(stores, w.sites)
    ensures OverlayHolds(w.(mem := TraceeStores(w.mem, stores)), TraceeStores(orig, stores))
  {
    forall i | 0 <= i < |w.sites| && w.sites[i].IsTrap()
      ensures w.sites[i].address !in stores
    {
      assert TrapAt(w.sites, w.sites[i].address);
    }
  }

  // ----- Runs -----

  datatype EngineOp =
    | CreateOp(address: u64, hardware: bool)
    | EnableOp(address: u64)
    | DisableOp(address: u64)
    | RemoveOp(address: u64)
    | StepOverOp(pc: u64, stores: Memory, failure: Option<Error>)
    | TraceeOp(stores: Memory)
    | SelectOp(tid: int)
    | StopOp(tid: int)

  /** The engine's state, with the memory as the tracee would have it without breakpoints. */
  datatype Trace = Trace(world: World, orig: Memory, owners: Owners)

  /** The tracee never overwrites a breakpoint that is in place while it runs. */
  ghost predicate Fair(r: Trace, op: EngineOp) {
    match op
    case TraceeOp(stores) => Spares(stores, r.world.sites)
    case StepOverOp(pc, stores, _) =>
      && Known(r.world)
      && (match FindAddress(r.world.sites, pc, 0)
          case None => true
          case Some(i) => Spares(stores, DisableAt(r.world, i).world.sites))
    case _ => true
  }

  ghost function OnSite(r: Trace, i: nat, after: World): Trace
    requires i < |r.world.sites| && i < |after.sites|
  {
    Trace(after, r.orig, OwnersAfter(r.world, after, i, r.owners))
  }

  /** The site at the address, if there is one, after an operation on it. */
  ghost function StepEngine(r: Trace, op: EngineOp): Trace
    requires Known(r.world)
  {
    match op
    case CreateOp(address, hardware) => r.(world := Create(r.world, address, hardware).world)
    case TraceeOp(stores) => Trace(r.world.(mem := TraceeStores(r.world.mem, stores)), TraceeStores(r.orig, stores), r.owners)
    case EnableOp(address) =>
      (match FindAddress(r.world.sites, address, 0)
       case None => r
       case Some(i) => OnSite(r, i, EnableAt(r.world, i).world))
    case DisableOp(address) =>
      (match FindAddress(r.world.sites, address, 0)
       case None => r
       case Some(i) => OnSite(r, i, DisableAt(r.world, i).world))
    case RemoveOp(address) =>
      (match FindAddress(r.world.sites, address, 0)
       case None => r
       case Some(i) => OnSite(r, i, DisableAt(r.world, i).world).(world := RemoveAt(r.world, i).world))
    case StepOverOp(pc, stores, failure) => StepOverRun(r, pc, stores, failure)
    case SelectOp(tid) =>
      if tid in r.world.debug.cached then r.(world := r.world.(debug := r.world.debug.(current := tid))) else r
    case StopOp(tid) =>
      if tid in r.world.debug.cached then r.(world := r.world.(debug := Refreshed(r.world.debug, tid))) else r
  }

  ghost function StepOverRun(r: Trace, pc: u64, stores: Memory, failure: Option<Error>): Trace
    requires Known(r.world)
  {
    match FindAddress(r.world.sites, pc, 0)
    case None => r
    case Some(i) =>
      if !r.world.sites[i].enabled then r
      else
        DisableKnown(r.world, i);
        var off := DisableAt(r.world, i);
        var lifted := OnSite(r, i, off.world);
        if off.result.Err? then lifted
        else
          var ran := Trace(off.world.(mem := TraceeStores(off.world.mem, stores)), TraceeStores(r.orig, stores), lifted.owners);
          if failure.Some? then ran else OnSite(ran, i, EnableAt(ran.world, i).world)
  }

  /** The run's step over a breakpoint is the engine's. */
  lemma StepOverAgrees(r: Trace, pc: u64, stores: Memory, failure: Option<Error>)
    requires Known(r.world)
    ensures StepOverRun(r, pc, stores, failure).world == StepOver(r.world, pc, stores, failure).world
  {
  }

  ghost predicate GoodMemory(r: Trace) {
    OverlayHolds(r.world, r.orig)
  }

  ghost predicate GoodRegisters(r: Trace) {
    Registered(r.world, r.owners)
  }

  lemma StepOverOverlays(r: Trace, pc: u64, stores: Memory, failure: Option<Error>)
    requires GoodMemory(r) && Fair(r, StepOverOp(pc, stores, failure))
    ensures GoodMemory(StepOverRun(r, pc, stores, failure))
  {
    var found := FindAddress(r.world.sites, pc, 0);
    if found.Some? && r.world.sites[found.value].enabled {
      var i := found.value;
      DisableOverlays(r.world, i, r.orig);
      DisableDisables(r.world, i);
      var off := DisableAt(r.world, i);
      if off.result.Ok? {
        StoresOverlay(off.world, stores, r.orig);
        EnableOverlays(off.world.(mem := TraceeStores(off.world.mem, stores)), i, TraceeStores(r.orig, stores));
      }
    }
  }

  lemma StepOverRegisters(r: Trace, pc: u64, stores: Memory, failure: Option<Error>)
    requires Known(r.world) && GoodRegisters(r)
    ensures GoodRegisters(StepOverRun(r, pc, stores, failure))
  {
    var found := FindAddress(r.world.sites, pc, 0);
    if found.Some? && r.world.sites[found.value].enabled {
      var i := found.value;
      DisableRegisters(r.world, i, r.owners);
      DisableDisables(r.world, i);
      var off := DisableAt(r.world, i);
      if off.result.Ok? {
        var owners := OwnersAfter(r.world, off.world, i, r.owners);
        EnableRegisters(off.world.(mem := TraceeStores(off.world.mem, stores)), i, owners);
      }
    }
  }

  /** Every operation, thread selection and stops included, keeps the overlay. */
  lemma StepOverlays(r: Trace, op: EngineOp)
    requires GoodMemory(r) && Fair(r, op)
    ensures GoodMemory(StepEngine(r, op))
  {
    match op
    case CreateOp(address, hardware) => CreateOverlays(r.world, address, hardware, r.orig);
    case TraceeOp(stores) => StoresOverlay(r.world, stores, r.orig);
    case StepOverOp(pc, stores, failure) => StepOverOverlays(r, pc, stores, failure);
    case EnableOp(address) =>
      var i := FindAddress(r.world.sites, address, 0);
      if i.Some? {
        EnableOverlays(r.world, i.value, r.orig);
      }
    case DisableOp(address) =>
      var i := FindAddress(r.world.sites, address, 0);
      if i.Some? {
        DisableOverlays(r.world, i.value, r.orig);
      }
    case RemoveOp(address) =>
      var i := FindAddress(r.world.sites, address, 0);
      if i.Some? {
        DisableDisables(r.world, i.value);
        RemoveOverlays(r.world, i.value, r.orig);
      }
    case _ =>
  }

  /** Another thread than the main one stops while a hardware site is enabled. */
  predicate LosesSlot(r: Trace, op: EngineOp) {
    op.StopOp? && op.tid in r.world.debug.cached && op.tid != r.world.debug.pid && r.owners != map[]
  }

  lemma SiteRegisters(r: Trace, op: EngineOp)
    requires Known(r.world) && GoodRegisters(r) && (op.EnableOp? || op.DisableOp? || op.RemoveOp?)
    ensures GoodRegisters(StepEngine(r, op))
  {
    var i := FindAddress(r.world.sites, op.address, 0);
    if i.Some? {
      if op.EnableOp? {
        EnableRegisters(r.world, i.value, r.owners);
      } else if op.DisableOp? {
        DisableRegisters(r.world, i.value, r.owners);
      } else {
        DisableDisables(r.world, i.value);
        RemoveRegisters(r.world, i.value, r.owners);
      }
    }
  }

  lemma OtherRegisters(r: Trace, op: EngineOp)
    requires Known(r.world) && GoodRegisters(r) && (op.CreateOp? || op.TraceeOp? || op.SelectOp?)
    ensures GoodRegisters(StepEngine(r, op))
  {
    match op
    case CreateOp(address, hardware) => CreateRegisters(r.world, address, hardware, r.owners);
    case SelectOp(tid) => SitesAreOwned(r.world, r.world.debug.(current := tid), r.owners);
    case _ =>
  }

  lemma StepRegistersExactly(r: Trace, op: EngineOp)
    requires Known(r.world) && GoodRegisters(r)
    ensures GoodRegisters(StepEngine(r, op)) <==> !LosesSlot(r, op)
  {
    if op.StopOp? {
      StopExactly(r, op.tid);
    } else if op.StepOverOp? {
      StepOverRegisters(r, op.pc, op.stores, op.failure);
    } else if op.EnableOp? || op.DisableOp? || op.RemoveOp? {
      SiteRegisters(r, op);
    } else {
      OtherRegisters(r, op);
    }
  }

  lemma StopExactly(r: Trace, tid: int)
    requires Known(r.world) && GoodRegisters(r)
    ensures GoodRegisters(StepEngine(r, StopOp(tid))) <==> !LosesSlot(r, StopOp(tid))
  {
    if tid in r.world.debug.cached {
      StopOfThread(r.world, StepEngine(r, StopOp(tid)).world, r.owners, tid);
    }
  }

  lemma StopOfThread(w: World, after: World, owners: Owners, tid: int)
    requires Registered(w, owners) && tid in w.debug.cached && after == w.(debug := Refreshed(w.debug, tid))
    ensures Registered(after, owners) <==> tid == w.debug.pid || owners == map[]
  {
    RefreshExactly(w.debug, owners, tid);
    SitesAreOwned(w, after.debug, owners);
  }

  /** What becomes of the registers leaves the sites' half of the invariant alone. */
  lemma SitesAreOwned(w: World, debug: State, owners: Owners)
    requires Registered(w, owners)
    ensures Registered(w.(debug := debug), owners) <==> Inv(debug, owners)
  {
  }

  /** A tracee without sites and with zero debug registers: where runs start. */
  lemma StartIsGood(mem: Memory, debug: State)
    requires debug.Valid()
    requires forall t :: t in debug.cached ==> debug.cached[t].dr7 == {} && debug.kernel[t].dr7 == {}
    ensures var r := Trace(World(mem, debug, []), mem, map[]); GoodMemory(r) && GoodRegisters(r)
  {
    ZeroRegistersOwnNothing(debug);
  }

  /** The states of a fair run, one after each operation. */
  ghost predicate IsEngineRun(states: seq<Trace>, ops: seq<EngineOp>) {
    && |states| == |ops| + 1
    && forall k :: 0 <= k < |ops| ==>
         Known(states[k].world) && Fair(states[k], ops[k]) && states[k + 1] == StepEngine(states[k], ops[k])
  }

  /** Over every run of create, enable, disable, remove, step-over, tracee execution, thread selection and
      stops of any thread, tracee memory is the original with int3 at exactly the enabled software sites,
      several in one word or not. */
  lemma {:induction false} EveryRunIsOverlaid(states: seq<Trace>, ops: seq<EngineOp>, k: nat)
    requires IsEngineRun(states, ops) && GoodMemory(states[0]) && k <= |ops|
    ensures GoodMemory(states[k])
  {
    if k > 0 {
      EveryRunIsOverlaid(states, ops, k - 1);
      StepOverlays(states[k - 1], ops[k - 1]);
    }
  }

  /** The owned debug registers are exactly those of the enabled hardware sites, in all states of a run, if
      and only if no thread but the main one stops while a hardware site is enabled. */
  lemma {:induction false} RegistersAreOwnedExactly(states: seq<Trace>, ops: seq<EngineOp>)
    requires IsEngineRun(states, ops) && GoodRegisters(states[0])
    ensures (forall k :: 0 <= k <= |ops| ==> GoodRegisters(states[k]))
            <==> (forall k :: 0 <= k < |ops| ==> !LosesSlot(states[k], ops[k]))
  {
    if forall k :: 0 <= k <= |ops| ==> GoodRegisters(states[k]) {
      forall k | 0 <= k < |ops|
        ensures !LosesSlot(states[k], ops[k])
      {
        assert GoodRegisters(states[k]) && GoodRegisters(states[k + 1]);
        StepRegistersExactly(states[k], ops[k]);
      }
    }
    if forall k :: 0 <= k < |ops| ==> !LosesSlot(states[k], ops[k]) {
      forall k | 0 <= k <= |ops|
        ensures GoodRegisters(states[k])
      {
        NoRegisterLost(states, ops, k);
      }
    }
  }

  lemma {:induction false} NoRegisterLost(states: seq<Trace>, ops: seq<EngineOp>, k: nat)
    requires IsEngineRun(states, ops) && GoodRegisters(states[0]) && k <= |ops|
    requires forall j :: 0 <= j < k ==> !LosesSlot(states[j], ops[j])
    ensures GoodRegisters(states[k])
  {
    if k > 0 {
      NoRegisterLost(states, ops, k - 1);
      StepRegistersExactly(states[k - 1], ops[k - 1]);
    }
  }

  /** Disabling every site gives the original memory back. */
  lemma AllDisabledIsOriginal(r: Trace)
    requires GoodMemory(r) && forall i :: 0 <= i < |r.world.sites| ==> !r.world.sites[i].enabled
    ensures r.world.mem == r.orig && (GoodRegisters(r) ==> r.owners == map[])
  {
    forall a | a in r.world.mem
      ensures r.world.mem[a] == r.orig[a]
    {
      assert !TrapAt(r.world.sites, a);
    }
    if GoodRegisters(r) {
      assert forall k :: k !in r.owners;
    }
  }

  // ----- read_memory_without_traps -----

  predicate InRange(s: Site, low: int, high: int) {
    low <= s.address && high > s.address
  }

  /** `get_in_region`, in the order of the collection. */
  function InRegion(sites: seq<Site>, low: int, high: int): (r: seq<Site>)
    ensures forall s :: s in r <==> s in sites && InRange(s, low, high)
  {
    if sites == [] then []
    else
      var rest := InRegion(sites[..|sites| - 1], low, high);
      var last := sites[|sites| - 1];
      assert sites == sites[..|sites| - 1] + [last];
      if InRange(last, low, high) then rest + [last] else rest
  }

  method GetInRegion(sites: seq<Site>, low: int, high: int) returns (r: seq<Site>)
    ensures r == InRegion(sites, low, high)
  {
    r := [];
    for k := 0 to |sites|
      invariant r == InRegion(sites[..k], low, high)
    {
      assert sites[..k + 1][..k] == sites[..k];
      if InRange(sites[k], low, high) {
        r := r + [sites[k]];
      }
    }
    assert sites[..|sites|] == sites;
  }

  predicate SavedAt(sites: seq<Site>, address: int, b: byte) {
    exists i :: 0 <= i < |sites| && sites[i].IsTrap() && sites[i].address == address && sites[i].saved == b
  }

  /** A byte of the result is one that a trap there saved, or, with no trap there, the raw byte. */
  predicate Patched(sites: seq<Site>, address: int, raw: seq<byte>, got: seq<byte>)
    requires |raw| == |got|
  {
    forall j :: 0 <= j < |got| ==>
      if TrapAt(sites, address + j) then SavedAt(sites, address + j, got[j]) else got[j] == raw[j]
  }

  function PatchedBy(s: Site, address: int, got: seq<byte>): (r: seq<byte>)
    requires InRange(s, address, address + |got|)
    ensures |r| == |got|
  {
    if s.IsTrap() then got[s.address - address := s.saved] else got
  }

  /** The read with the saved bytes put back at the enabled software sites of the region. */
  method ReadWithoutTraps(w: World, address: int, amount: nat) returns (r: Result<seq<byte>>)
    ensures var raw := ReadMemory(w.mem, address, amount);
            && (raw.Err? ==> r == Err(raw.error))
            && (raw.Ok? ==> r.Ok? && |r.value| == |raw.value| == amount && Patched(w.sites, address, raw.value, r.value))
  {
    var raw :- TraceeMemory.Read(w.mem, address, amount);
    ReadLength(w.mem, address, amount);
    var memory: seq<byte> := raw;
    var sites := GetInRegion(w.sites, address, address + amount);
    for k := 0 to |sites|
      invariant |memory| == amount && Patched(sites[..k], address, raw, memory)
    {
      assert sites[k] in sites;
      PatchStep(sites, k, address, raw, memory);
      if sites[k].enabled && !sites[k].hardware {
        memory := memory[sites[k].address - address := sites[k].saved];
      }
    }
    assert sites[..|sites|] == sites;
    RegionPatches(w.sites, address, raw, memory);
    r := Ok(memory);
  }

  lemma PatchStep(sites: seq<Site>, k: nat, address: int, raw: seq<byte>, got: seq<byte>)
    requires k < |sites| && |raw| == |got| && Patched(sites[..k], address, raw, got)
    requires InRange(sites[k], address, address + |got|)
    ensures Patched(sites[..k + 1], address, raw, PatchedBy(sites[k], address, got))
  {
    var s, before, now := sites[k], sites[..k], sites[..k + 1];
    var got' := PatchedBy(s, address, got);
    forall j | 0 <= j < |got|
      ensures if TrapAt(now, address + j) then SavedAt(now, address + j, got'[j]) else got'[j] == raw[j]
    {
      assert now[k] == s;
      if s.IsTrap() && s.address == address + j {
        assert SavedAt(now, address + j, got'[j]);
      } else if TrapAt(before, address + j) {
        var i :| 0 <= i < k && before[i].IsTrap() && before[i].address == address + j && before[i].saved == got[j];
        assert now[i] == before[i];
      } else {
        assert forall i :: 0 <= i < k ==> now[i] == before[i];
      }
    }
  }

  lemma RegionPatches(sites: seq<Site>, address: int, raw: seq<byte>, got: seq<byte>)
    requires |raw| == |got| && Patched(InRegion(sites, address, address + |got|), address, raw, got)
    ensures Patched(sites, address, raw, got)
  {
    var region := InRegion(sites, address, address + |got|);
    forall j | 0 <= j < |got|
      ensures if TrapAt(sites, address + j) then SavedAt(sites, address + j, got[j]) else got[j] == raw[j]
    {
      if i :| 0 <= i < |sites| && sites[i].IsTrap() && sites[i].address == address + j {
        assert sites[i] in region;
        assert TrapAt(region, address + j);
      }
      if TrapAt(region, address + j) {
        var i :| 0 <= i < |region| && region[i].IsTrap() && region[i].address == address + j && region[i].saved == got[j];
        assert region[i] in sites;
      }
    }
  }

  /** In every good state the patched read is the original memory, whatever the region. */
  lemma PatchedIsOriginal(r: Trace, address: int, amount: nat, raw: seq<byte>, got: seq<byte>)
    requires GoodMemory(r) && Mapped(r.world.mem, address, amount) && |got| == amount
    requires raw == Bytes(r.world.mem, address, amount) && Patched(r.world.sites, address, raw, got)
    ensures Mapped(r.orig, address, amount) && got == Bytes(r.orig, address, amount)
  {
    forall j | 0 <= j < amount
      ensures got[j] == Bytes(r.orig, address, amount)[j]
    {
      var a := address + j;
      assert a in r.world.mem;
    }
  }

  /** `read_memory_without_traps` on a mapped region of a good state. */
  method ReadOriginal(ghost r: Trace, w: World, address: int, amount: nat) returns (bytes: Result<seq<byte>>)
    requires GoodMemory(r) && w == r.world
    requires Mapped(w.mem, address, amount) && |ChunksOf(address, amount)| <= IOV_MAX
    ensures Mapped(r.orig, address, amount) && bytes == Ok(Bytes(r.orig, address, amount))
  {
    ReadIsBytes(w.mem, address, amount);
    bytes := ReadWithoutTraps(w, address, amount);
    PatchedIsOriginal(r, address, amount, Bytes(w.mem, address, amount), bytes.value);
  }

  // ----- write_memory over breakpoints -----

  /** Each trap in the range stands for an int3 of the tracee's own and is overwritten with one. */
  predicate TrapsRewritten(sites: seq<Site>, address: int, data: seq<byte>) {
    forall i :: 0 <= i < |sites| && sites[i].IsTrap() && address <= sites[i].address < address + |data| ==>
      data[sites[i].address - address] == INT3 == sites[i].saved
  }

  /** `write_memory` does not know about breakpoints. The overlay survives a write, with the data taken
      into the original too, exactly when each trap in the range already stands for an int3 and gets one:
      in particular when the range holds no enabled software site. */
  lemma WriteOverTraps(r: Trace, address: int, data: seq<byte>)
    requires GoodMemory(r) && Mapped(r.world.mem, address, RoundedUp(|data|))
    ensures WriteMemory(r.world.mem, address, data).result.Ok?
    ensures Overlaid(WriteMemory(r.world.mem, address, data).memory, r.world.sites, Stored(r.orig, address, data))
            <==> TrapsRewritten(r.world.sites, address, data)
  {
    WriteIsStored(r.world.mem, address, data);
    var sites, mem, orig := r.world.sites, Stored(r.world.mem, address, data), Stored(r.orig, address, data);
    if Overlaid(mem, sites, orig) {
      OverlaidRewrites(r, address, data);
    }
    if TrapsRewritten(sites, address, data) {
      RewrittenOverlays(r, address, data);
    }
  }

  lemma OverlaidRewrites(r: Trace, address: int, data: seq<byte>)
    requires GoodMemory(r) && Mapped(r.world.mem, address, |data|)
    requires Overlaid(Stored(r.world.mem, address, data), r.world.sites, Stored(r.orig, address, data))
    ensures TrapsRewritten(r.world.sites, address, data)
  {
    var sites, mem := r.world.sites, Stored(r.world.mem, address, data);
    forall i | 0 <= i < |sites| && sites[i].IsTrap() && address <= sites[i].address < address + |data|
      ensures data[sites[i].address - address] == INT3 == sites[i].saved
    {
      var a := sites[i].address;
      assert TrapAt(sites, a);
      assert a in mem;
    }
  }

  lemma RewrittenOverlays(r: Trace, address: int, data: seq<byte>)
    requires GoodMemory(r) && Mapped(r.world.mem, address, |data|) && TrapsRewritten(r.world.sites, address, data)
    ensures Overlaid(Stored(r.world.mem, address, data), r.world.sites, Stored(r.orig, address, data))
  {
    var sites, mem, orig := r.world.sites, Stored(r.world.mem, address, data), Stored(r.orig, address, data);
    forall a | a in mem
      ensures mem[a] == if TrapAt(sites, a) then INT3 else orig[a]
    {
      if i :| 0 <= i < |sites| && sites[i].IsTrap() && sites[i].address == a {
        assert TrapAt(sites, a);
      }
    }
  }
}
