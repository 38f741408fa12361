/** Breakpoint sites: int3 bytes laid over tracee memory by reading and writing whole words, hardware
    sites in the debug registers, the collection that holds them, and what every run keeps. */
module Breakpoints {
  import opened Words
  import opened TraceeMemory
  import opened DebugRegisters
  import opened HardwareStops

  const INT3: byte := 0xcc

  datatype Site = Site(address: u64, hardware: bool, enabled: bool, saved: byte, slot: int) {
    /** An int3 in memory. */
    predicate IsTrap() {
      enabled && !hardware
    }

    /** A debug register in use. */
    predicate IsLive() {
      enabled && hardware
    }
  }

  datatype World = World(mem: Memory, debug: State, sites: seq<Site>)

  // ----- One site -----

  /** The word at `address` with its lowest byte replaced: `(data & ~0xff) | b`. */
  function WithLowByte(word: seq<byte>, b: byte): (w: seq<byte>)
    requires |word| == 8
    ensures |w| == 8
  {
    var data := LittleEndian(word);
    ToBytes(data - data % 0x100 + b, 8)
  }

  datatype Switched = Switched(result: Result<()>, mem: Memory, debug: State, site: Site)

  /** A word that can be peeked can be poked. */
  function EnableSite(mem: Memory, debug: State, s: Site): Switched
    requires debug.Valid()
  {
    if s.enabled then Switched(Ok(()), mem, debug, s)
    else if s.hardware then
      var out := SetStep(debug, s.address, Execute, 1);
      match out.result
      case Err(e) => Switched(Err(e), mem, out.state, s)
      case Ok(slot) => Switched(Ok(()), mem, out.state, s.(enabled := true, slot := slot))
    else
      match Peek(mem, s.address)
      case Err(e) => Switched(Err(e), mem, debug, s)
      case Ok(word) =>
        Switched(Ok(()), Poke(mem, s.address, WithLowByte(word, INT3)).value, debug,
                 s.(enabled := true, saved := LittleEndian(word) % 0x100))
  }

  function DisableSite(mem: Memory, debug: State, s: Site): Switched
    requires debug.Valid() && (s.IsLive() ==> 0 <= s.slot < 4)
  {
    if !s.enabled then Switched(Ok(()), mem, debug, s)
    else if s.hardware then Switched(Ok(()), mem, ClearStep(debug, s.slot), s.(enabled := false, slot := -1))
    else
      match Peek(mem, s.address)
      case Err(e) => Switched(Err(e), mem, debug, s)
      case Ok(word) =>
        Switched(Ok(()), Poke(mem, s.address, WithLowByte(word, s.saved)).value, debug, s.(enabled := false))
  }

  lemma LowByte(word: seq<byte>, n: nat, b: byte)
    requires 0 < n == |word|
    ensures var data := LittleEndian(word); data % 0x100 == word[0] && ToBytes(data - data % 0x100 + b, n) == word[0 := b]
  {
    var tail := word[1..];
    var w := [b] + tail;
    assert w[1..] == tail;
    LowDigit(word[0], LittleEndian(tail));
    BytesRoundTrip(w);
    assert word[0 := b] == w;
  }

  lemma LowDigit(b: byte, t: nat)
    ensures (b + 0x100 * t) % 0x100 == b
  {
  }

  /** Rewriting a whole word changes one byte: its neighbours come back as they were. */
  lemma PokeLowByte(mem: Memory, address: int, b: byte)
    requires Mapped(mem, address, 8)
    ensures var word := Bytes(mem, address, 8);
            && LittleEndian(word) % 0x100 == mem[address]
            && Poke(mem, address, WithLowByte(word, b)) == Ok(mem[address := b])
  {
    var word := Bytes(mem, address, 8);
    LowByte(word, 8, b);
    var after, wanted := Stored(mem, address, WithLowByte(word, b)), mem[address := b];
    assert after.Keys == wanted.Keys;
    forall a | a in after
      ensures after[a] == wanted[a]
    {
      if address <= a < address + 8 {
        assert WithLowByte(word, b)[a - address] == word[0 := b][a - address];
      }
    }
    assert after == wanted;
  }

  // ----- The overlay invariant -----

  predicate TrapAt(sites: seq<Site>, address: int) {
    exists i :: 0 <= i < |sites| && sites[i].IsTrap() && sites[i].address == address
  }

  predicate Distinct(sites: seq<Site>) {
    forall i, j :: 0 <= i < j < |sites| ==> sites[i].address != sites[j].address
  }

  /** Memory is the original with int3 at exactly the enabled software sites, which saved the rest. */
  predicate Overlaid(mem: Memory, sites: seq<Site>, orig: Memory) {
    && mem.Keys == orig.Keys
    && (forall a :: a in mem ==> mem[a] == if TrapAt(sites, a) then INT3 else orig[a])
    && (forall i :: 0 <= i < |sites| && sites[i].IsTrap() ==>
          sites[i].address in orig && sites[i].saved == orig[sites[i].address])
  }

  /** The owned debug registers are exactly those of the enabled hardware sites. */
  predicate Owned(sites: seq<Site>, owners: Owners) {
    && (forall i :: 0 <= i < |sites| && sites[i].IsLive() ==>
          0 <= sites[i].slot < 4 && sites[i].slot in owners && owners[sites[i].slot] == Owner(sites[i].address, Execute, 1))
    && (forall i, j :: 0 <= i < j < |sites| && sites[i].IsLive() && sites[j].IsLive() ==>
          sites[i].slot != sites[j].slot)
    && (forall k :: k in owners ==> exists i :: 0 <= i < |sites| && sites[i].IsLive() && sites[i].slot == k)
  }

  /** The memory half of the invariant. */
  ghost predicate OverlayHolds(w: World, orig: Memory) {
    Known(w) && Distinct(w.sites) && Overlaid(w.mem, w.sites, orig)
  }

  /** The register half. */
  ghost predicate Registered(w: World, owners: Owners) {
    Inv(w.debug, owners) && Owned(w.sites, owners)
  }

  // ----- Operations on the collection -----

  datatype Done = Done(result: Result<()>, world: World)

  function Create(w: World, address: u64, hardware: bool): Done {
    if FindAddress(w.sites, address, 0).Some? then Done(Err(AlreadyCreated), w)
    else Done(Ok(()), w.(sites := w.sites + [Site(address, hardware, false, 0, -1)]))
  }

  /** `find_by_address`: the first site there. */
  function FindAddress(sites: seq<Site>, address: u64, from: nat): (r: Option<nat>)
    requires from <= |sites|
    ensures r.Some? ==> from <= r.value < |sites| && sites[r.value].address == address
    ensures r.None? ==> forall i :: from <= i < |sites| ==> sites[i].address != address
    decreases |sites| - from
  {
    if from == |sites| then None
    else if sites[from].address == address then Some(from)
    else FindAddress(sites, address, from + 1)
  }

  function EnableAt(w: World, i: nat): Done
    requires w.debug.Valid() && i < |w.sites|
  {
    var out := EnableSite(w.mem, w.debug, w.sites[i]);
    Done(out.result, World(out.mem, out.debug, w.sites[i := out.site]))
  }

  /** Every enabled hardware site knows its register. */
  predicate Known(w: World) {
    && w.debug.Valid()
    && forall i :: 0 <= i < |w.sites| && w.sites[i].IsLive() ==> 0 <= w.sites[i].slot < 4
  }

  function DisableAt(w: World, i: nat): Done
    requires Known(w) && i < |w.sites|
  {
    var out := DisableSite(w.mem, w.debug, w.sites[i]);
    Done(out.result, World(out.mem, out.debug, w.sites[i := out.site]))
  }

  /** `remove_by_id` and `remove_by_address`, once the site is found: disabled, then erased. */
  function RemoveAt(w: World, i: nat): Done
    requires Known(w) && i < |w.sites|
  {
    var off := DisableAt(w, i);
    if off.result.Err? then off else Done(Ok(()), off.world.(sites := off.world.sites[..i] + off.world.sites[i + 1..]))
  }

  /** What the tracee itself stores while it runs. */
  function TraceeStores(mem: Memory, stores: Memory): Memory {
    map a | a in mem :: if a in stores then stores[a] else mem[a]
  }

  /** `step_over_breakpoint`: an enabled site at the pc is lifted while the tracee runs, for the stop that
      is swallowed and for one instruction; a call to the kernel that fails leaves it lifted. */
  function StepOver(w: World, pc: u64, stores: Memory, failure: Option<Error>): Done
    requires Known(w)
  {
    match FindAddress(w.sites, pc, 0)
    case None => Done(Ok(()), w)
    case Some(i) =>
      if !w.sites[i].enabled then Done(Ok(()), w)
      else
        var off := DisableAt(w, i);
        if off.result.Err? then off
        else
          DisableKnown(w, i);
          var ran := off.world.(mem := TraceeStores(off.world.mem, stores));
          if failure.Some? then Done(Err(failure.value), ran) else EnableAt(ran, i)
  }

  lemma CreateKnown(w: World, address: u64, hardware: bool)
    requires Known(w)
    ensures Known(Create(w, address, hardware).world)
  {
  }

  lemma DisableKnown(w: World, i: nat)
    requires Known(w) && i < |w.sites|
    ensures Known(DisableAt(w, i).world) && |DisableAt(w, i).world.sites| == |w.sites|
  {
  }

  lemma EnableKnown(w: World, i: nat)
    requires Known(w) && i < |w.sites|
    ensures Known(EnableAt(w, i).world) && |EnableAt(w, i).world.sites| == |w.sites|
  {
  }

  lemma RemoveKnown(w: World, i: nat)
    requires Known(w) && i < |w.sites|
    ensures Known(RemoveAt(w, i).world)
  {
    DisableKnown(w, i);
  }

  // ----- Each operation keeps the invariant -----

  lemma TrapUpdate(sites: seq<Site>, i: nat, s: Site, a: int)
    requires i < |sites| && Distinct(sites) && s.address == sites[i].address
    ensures TrapAt(sites[i := s], a) == if a == s.address then s.IsTrap() else TrapAt(sites, a)
    ensures Distinct(sites[i := s])
  {
    var after := sites[i := s];
    if j :| 0 <= j < |sites| && sites[j].IsTrap() && sites[j].address == a && j != i {
      assert after[j] == sites[j];
    }
    if s.IsTrap() && s.address == a {
      assert after[i].IsTrap();
    }
  }

  lemma OverlayOn(mem: Memory, sites: seq<Site>, orig: Memory, i: nat, s: Site)
    requires i < |sites| && Distinct(sites) && Overlaid(mem, sites, orig)
    requires sites[i].address in mem && !sites[i].IsTrap()
    requires s.address == sites[i].address && s.IsTrap() && s.saved == mem[s.address]
    ensures Distinct(sites[i := s]) && Overlaid(mem[s.address := INT3], sites[i := s], orig)
  {
    var mem', sites' := mem[s.address := INT3], sites[i := s];
    forall a | a in mem'
      ensures mem'[a] == if TrapAt(sites', a) then INT3 else orig[a]
    {
      TrapUpdate(sites, i, s, a);
    }
    assert !TrapAt(sites, s.address);
    TrapUpdate(sites, i, s, s.address);
  }

  lemma OverlayOff(mem: Memory, sites: seq<Site>, orig: Memory, i: nat, s: Site)
    requires i < |sites| && Distinct(sites) && Overlaid(mem, sites, orig)
    requires sites[i].IsTrap() && s.address == sites[i].address && !s.IsTrap()
    ensures Distinct(sites[i := s]) && Overlaid(mem[s.address := sites[i].saved], sites[i := s], orig)
  {
    var mem', sites' := mem[s.address := sites[i].saved], sites[i := s];
    forall a | a in mem'
      ensures mem'[a] == if TrapAt(sites', a) then INT3 else orig[a]
    {
      TrapUpdate(sites, i, s, a);
    }
    TrapUpdate(sites, i, s, s.address);
  }

  /** A site that is no trap before or after leaves the overlay alone. */
  lemma OverlaySame(mem: Memory, sites: seq<Site>, orig: Memory, i: nat, s: Site)
    requires i < |sites| && Distinct(sites) && Overlaid(mem, sites, orig)
    requires s.address == sites[i].address && !sites[i].IsTrap() && !s.IsTrap()
    ensures Distinct(sites[i := s]) && Overlaid(mem, sites[i := s], orig)
  {
    var sites' := sites[i := s];
    forall a | a in mem
      ensures mem[a] == if TrapAt(sites', a) then INT3 else orig[a]
    {
      TrapUpdate(sites, i, s, a);
      assert a == s.address ==> !TrapAt(sites, a);
    }
    TrapUpdate(sites, i, s, s.address);
  }

  lemma OwnedSame(sites: seq<Site>, owners: Owners, i: nat, s: Site)
    requires i < |sites| && Owned(sites, owners)
    requires !sites[i].IsLive() && !s.IsLive()
    ensures Owned(sites[i := s], owners)
  {
    var sites' := sites[i := s];
    forall k | k in owners
      ensures exists j :: 0 <= j < |sites'| && sites'[j].IsLive() && sites'[j].slot == k
    {
      var j :| 0 <= j < |sites| && sites[j].IsLive() && sites[j].slot == k;
      assert sites'[j] == sites[j];
    }
  }

  lemma OwnedOn(sites: seq<Site>, owners: Owners, i: nat, slot: Slot)
    requires i < |sites| && Owned(sites, owners) && slot !in owners
    requires sites[i].hardware && !sites[i].enabled
    ensures Owned(sites[i := sites[i].(enabled := true, slot := slot)], owners[slot := Owner(sites[i].address, Execute, 1)])
  {
    var sites' := sites[i := sites[i].(enabled := true, slot := slot)];
    var owners' := owners[slot := Owner(sites[i].address, Execute, 1)];
    forall k | k in owners'
      ensures exists j :: 0 <= j < |sites'| && sites'[j].IsLive() && sites'[j].slot == k
    {
      if k == slot {
        assert sites'[i].slot == k;
      } else {
        var j :| 0 <= j < |sites| && sites[j].IsLive() && sites[j].slot == k;
        assert sites'[j] == sites[j];
      }
    }
  }

  lemma OwnedOff(sites: seq<Site>, owners: Owners, i: nat)
    requires i < |sites| && Owned(sites, owners) && sites[i].IsLive()
    ensures Owned(sites[i := sites[i].(enabled := false, slot := -1)], owners - {sites[i].slot})
  {
    var sites' := sites[i := sites[i].(enabled := false, slot := -1)];
    forall k | k in owners - {sites[i].slot}
      ensures exists j :: 0 <= j < |sites'| && sites'[j].IsLive() && sites'[j].slot == k
    {
      var j :| 0 <= j < |sites| && sites[j].IsLive() && sites[j].slot == k;
      assert sites'[j] == sites[j];
    }
  }

  /** The owners after an operation on one site. */
  function OwnersAfter(w: World, after: World, i: nat, owners: Owners): Owners
    requires i < |w.sites| && i < |after.sites|
  {
    var s, s' := w.sites[i], after.sites[i];
    if s.hardware && !s.enabled && s'.enabled && 0 <= s'.slot < 4 then owners[s'.slot := Owner(s.address, Execute, 1)]
    else if s.hardware && s.enabled && !s'.enabled then owners - {s.slot}
    else owners
  }

  lemma EnableOverlays(w: World, i: nat, orig: Memory)
    requires OverlayHolds(w, orig) && i < |w.sites|
    ensures OverlayHolds(EnableAt(w, i).world, orig)
  {
    var s := w.sites[i];
    var out := EnableSite(w.mem, w.debug, s);
    EnableKnown(w, i);
    assert w.sites[i := s] == w.sites;
    if !s.enabled {
      if s.hardware {
        OverlaySame(w.mem, w.sites, orig, i, out.site);
      } else if Peek(w.mem, s.address).Ok? {
        PokeLowByte(w.mem, s.address, INT3);
        OverlayOn(w.mem, w.sites, orig, i, out.site);
      }
    }
  }

  lemma DisableOverlays(w: World, i: nat, orig: Memory)
    requires OverlayHolds(w, orig) && i < |w.sites|
    ensures OverlayHolds(DisableAt(w, i).world, orig)
  {
    var s := w.sites[i];
    var out := DisableSite(w.mem, w.debug, s);
    DisableKnown(w, i);
    assert w.sites[i := s] == w.sites;
    if s.enabled {
      if s.hardware {
        OverlaySame(w.mem, w.sites, orig, i, out.site);
      } else if Peek(w.mem, s.address).Ok? {
        PokeLowByte(w.mem, s.address, s.saved);
        OverlayOff(w.mem, w.sites, orig, i, out.site);
      }
    }
  }

  lemma EnableRegisters(w: World, i: nat, owners: Owners)
    requires Registered(w, owners) && i < |w.sites|
    ensures var done := EnableAt(w, i);
            Registered(done.world, OwnersAfter(w, done.world, i, owners))
  {
    var s := w.sites[i];
    var out := EnableSite(w.mem, w.debug, s);
    assert w.sites[i := s] == w.sites;
    if !s.enabled && s.hardware {
      SetKeeps(w.debug, owners, Owner(s.address, Execute, 1));
      if out.result.Ok? {
        OwnedOn(w.sites, owners, i, out.site.slot);
      }
    } else if !s.enabled {
      OwnedSame(w.sites, owners, i, out.site);
    }
  }

  lemma DisableRegisters(w: World, i: nat, owners: Owners)
    requires Known(w) && Registered(w, owners) && i < |w.sites|
    ensures var done := DisableAt(w, i);
            Registered(done.world, OwnersAfter(w, done.world, i, owners))
  {
    var s := w.sites[i];
    var out := DisableSite(w.mem, w.debug, s);
    assert w.sites[i := s] == w.sites;
    if s.enabled && s.hardware {
      ClearKeeps(w.debug, owners, s.slot);
      OwnedOff(w.sites, owners, i);
    } else if s.enabled {
      OwnedSame(w.sites, owners, i, out.site);
    }
  }
}
