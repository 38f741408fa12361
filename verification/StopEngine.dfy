/** The breakpoint engine as objects: sites that update themselves, and the process that owns them. */
module StopEngine {
  import opened Words
  import opened TraceeMemory
  import opened HardwareStops
  import opened Breakpoints
  import opened DebugRegisters

  class BreakpointSite {
    const address: u64
    const hardware: bool
    var enabled: bool
    var saved: byte
    var slot: int

    ghost function View(): Site
      reads this
    {
      Site(address, hardware, enabled, saved, slot)
    }

    constructor (address: u64, hardware: bool)
      ensures View() == Site(address, hardware, false, 0, -1)
    {
      this.address, this.hardware := address, hardware;
      enabled, saved, slot := false, 0, -1;
    }

    method Enable(p: Debugger) returns (r: Result<()>)
      requires p.debug.View().Valid()
      modifies this, p`mem, p.debug`cached, p.debug`kernel
      ensures Switched(r, p.mem, p.debug.View(), View()) == EnableSite(old(p.mem), old(p.debug.View()), old(View()))
    {
      if enabled {
        return Ok(());
      }
      if hardware {
        var index :- p.debug.SetStoppoint(address, Execute, 1);
        slot := index;
      } else {
        var word :- Peek(p.mem, address);
        saved := LittleEndian(word) % 0x100;
        p.mem := Poke(p.mem, address, WithLowByte(word, INT3)).value;
      }
      enabled := true;
      r := Ok(());
    }

    method Disable(p: Debugger) returns (r: Result<()>)
      requires p.debug.View().Valid() && (View().IsLive() ==> 0 <= slot < 4)
      modifies this, p`mem, p.debug`cached, p.debug`kernel
      ensures Switched(r, p.mem, p.debug.View(), View()) == DisableSite(old(p.mem), old(p.debug.View()), old(View()))
    {
      if !enabled {
        return Ok(());
      }
      if hardware {
        p.debug.ClearStoppoint(slot);
        slot := -1;
      } else {
        var word :- Peek(p.mem, address);
        p.mem := Poke(p.mem, address, WithLowByte(word, saved)).value;
      }
      enabled := false;
      r := Ok(());
    }
  }

  predicate NoDuplicates(sites: seq<BreakpointSite>) {
    forall i, j :: 0 <= i < j < |sites| ==> sites[i] != sites[j]
  }

  class Debugger {
    var mem: Memory
    const debug: Process
    var sites: seq<BreakpointSite>

    ghost function Views(ss: seq<BreakpointSite>): (views: seq<Site>)
      reads ss
      ensures |views| == |ss| && forall i :: 0 <= i < |ss| ==> views[i] == ss[i].View()
    {
      if ss == [] then [] else Views(ss[..|ss| - 1]) + [ss[|ss| - 1].View()]
    }

    ghost function View(): World
      reads this, debug, sites
    {
      World(mem, debug.View(), Views(sites))
    }

    /** No site is in the collection twice, and an enabled hardware site knows its register. */
    ghost predicate Valid()
      reads this, debug, sites
    {
      NoDuplicates(sites) && Known(View())
    }

    constructor (mem: Memory, debug: Process)
      requires debug.View().Valid()
      ensures Valid() && View() == World(mem, debug.View(), [])
    {
      this.mem, this.debug, this.sites := mem, debug, [];
    }

    /** `create_breakpoint_site`. */
    method CreateSite(address: u64, hardware: bool) returns (r: Result<BreakpointSite>)
      requires Valid()
      modifies this`sites
      ensures Valid()
      ensures var done := Create(old(View()), address, hardware);
              View() == done.world && (r.Ok? <==> done.result.Ok?) && (r.Err? ==> r.error == done.result.error)
      ensures r.Ok? ==> fresh(r.value) && sites == old(sites) + [r.value]
    {
      var found := FindByAddress(address);
      if found.Some? {
        return Err(AlreadyCreated);
      }
      var site := new BreakpointSite(address, hardware);
      CreateKnown(View(), address, hardware);
      Push(site);
      r := Ok(site);
    }

    method Push(site: BreakpointSite)
      requires NoDuplicates(sites) && site !in sites
      modifies this`sites
      ensures NoDuplicates(sites) && sites == old(sites) + [site]
      ensures View() == old(View()).(sites := old(Views(sites)) + [site.View()])
    {
      sites := sites + [site];
      assert sites[..|sites| - 1] == old(sites);
    }

    method FindByAddress(address: u64) returns (r: Option<nat>)
      ensures r == FindAddress(Views(sites), address, 0)
    {
      for i := 0 to |sites|
        invariant FindAddress(Views(sites), address, 0) == FindAddress(Views(sites), address, i)
      {
        if sites[i].address == address {
          return Some(i);
        }
      }
      r := None;
    }

    method EnableSiteAt(i: nat) returns (r: Result<()>)
      requires Valid() && i < |sites|
      modifies this`mem, sites[i], debug`cached, debug`kernel
      ensures Valid() && sites == old(sites)
      ensures Done(r, View()) == EnableAt(old(View()), i)
    {
      EnableKnown(View(), i);
      r := sites[i].Enable(this);
      assert Views(sites) == old(Views(sites))[i := sites[i].View()];
    }

    method DisableSiteAt(i: nat) returns (r: Result<()>)
      requires Valid() && i < |sites|
      modifies this`mem, sites[i], debug`cached, debug`kernel
      ensures Valid() && sites == old(sites)
      ensures Done(r, View()) == DisableAt(old(View()), i)
    {
      DisableKnown(View(), i);
      r := sites[i].Disable(this);
      assert Views(sites) == old(Views(sites))[i := sites[i].View()];
    }

    /** `remove_by_address`; with no site there the source goes through an end iterator. */
    method RemoveByAddress(address: u64) returns (r: Result<()>)
      requires Valid()
      modifies this, sites, debug`cached, debug`kernel
      ensures Valid()
      ensures var found := FindAddress(old(Views(sites)), address, 0);
              Done(r, View()) == if found.Some? then RemoveAt(old(View()), found.value) else Done(Err(NotFound), old(View()))
    {
      var found := FindByAddress(address);
      if found.None? {
        return Err(NotFound);
      }
      r := RemoveSiteAt(found.value);
    }

    method RemoveSiteAt(i: nat) returns (r: Result<()>)
      requires Valid() && i < |sites|
      modifies this`mem, this`sites, sites[i], debug`cached, debug`kernel
      ensures Valid()
      ensures Done(r, View()) == RemoveAt(old(View()), i)
    {
      RemoveKnown(View(), i);
      r := DisableSiteAt(i);
      if r.Ok? {
        Erase(i);
      }
    }

    method Erase(i: nat)
      requires NoDuplicates(sites) && i < |sites|
      modifies this`sites
      ensures NoDuplicates(sites) && View() == old(View()).(sites := old(Views(sites)[..i] + Views(sites)[i + 1..]))
    {
      ghost var before := Views(sites);
      sites := sites[..i] + sites[i + 1..];
      assert Views(sites) == before[..i] + before[i + 1..];
    }

    /** The tracee executes one instruction. */
    method RunTracee(stores: Memory)
      requires Valid()
      modifies this`mem
      ensures Valid() && View() == old(View()).(mem := TraceeStores(old(mem), stores))
    {
      mem := TraceeStores(mem, stores);
    }

    /** `step_over_breakpoint`; `stores` is what the tracee writes before it stops again, and `failure` the
        error of a call to the kernel that fails. */
    method StepOverBreakpoint(pc: u64, stores: Memory, failure: Option<Error>) returns (r: Result<()>)
      requires Valid()
      modifies this, sites, debug`cached, debug`kernel
      ensures Valid() && sites == old(sites)
      ensures Done(r, View()) == StepOver(old(View()), pc, stores, failure)
    {
      var found := FindByAddress(pc);
      if found.Some? && sites[found.value].enabled {
        r := DisableSiteAt(found.value);
        if r.Err? {
          return;
        }
        RunTracee(stores);
        if failure.Some? {
          return Err(failure.value);
        }
        r := EnableSiteAt(found.value);
        return;
      }
      r := Ok(());
    }

    /** `handle_signal` on a stop of a thread: its registers are read again. */
    method HandleStop(tid: int)
      requires Valid() && tid in debug.cached
      modifies debug`cached
      ensures Valid() && View() == old(View()).(debug := Refreshed(old(View()).debug, tid))
    {
      debug.ReadAllRegisters(tid);
    }
  }
}
