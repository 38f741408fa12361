/** Backtraces with the functions that the index and the trees of entries give. */
module StackFunctions {
  import opened Words
  import opened Stacks
  import Dies
  import DieAddresses
  import FunctionIndex

  /** The inline stack of the target's functions, as read from the entries. */
  function Described(describe: Dies.Die -> Function, stack: Result<seq<Dies.Die>>): Result<seq<Function>> {
    var dies :- stack;
    Ok(seq(|dies|, i requires 0 <= i < |dies| => describe(dies[i])))
  }

  /** At every address of the main file the target's inline stack is an outcome of
      `FunctionIndex.Dwarf.InlineStackAt`, with this index and this outcome of building it. */
  ghost predicate FindsFunctions(t: Target, dwarf: FunctionIndex.Dwarf, out: FunctionIndex.Built, ranges: seq<byte>, describe: Dies.Die -> Function) {
    forall file: FileAddr :: file.elf == t.elf ==> IsStackOf(t, dwarf, out, DieAddresses.Query(0, ranges, file.addr), describe, file)
  }

  ghost predicate IsStackOf(t: Target, dwarf: FunctionIndex.Dwarf, out: FunctionIndex.Built, q: DieAddresses.Query, describe: Dies.Die -> Function, file: FileAddr) {
    exists r :: dwarf.StackAnswers(out, q, r) && t.inlineStack(file) == Described(describe, r)
  }

  /** Functions start where `low_pc` says. */
  ghost predicate ReadsStarts(describe: Dies.Die -> Function, u: Dies.Unit, q: DieAddresses.Query, elf: nat) {
    forall d: Dies.Die :: DieAddresses.Parsed(u, d) ==> describe(d).lowPc == InFile(DieAddresses.LowPc(u, q, d), elf)
  }

  function InFile(address: Result<u64>, elf: nat): Result<FileAddr> {
    var a :- address;
    Ok(FileAddr(elf, a))
  }

  /** A parsed function without ranges has no start: a frame that needs it is where the list breaks off. */
  lemma NoStartWithoutRanges(describe: Dies.Die -> Function, u: Dies.Unit, q: DieAddresses.Query, elf: nat, pos: nat)
    requires ReadsStarts(describe, u, q, elf)
    requires Dies.DieAt(u, pos).Ok? && Dies.DieAt(u, pos).value.Entry?
    requires DieAddresses.AttrOf(u, Dies.DieAt(u, pos).value, DieAddresses.AT_RANGES).None?
    ensures describe(Dies.DieAt(u, pos).value).lowPc.Err?
  {
    DieAddresses.LowPcThrows(u, q, pos);
  }

  /** When the index has failed to build, or holds functions with low addresses and no ranges only, every `unwind`
      of a thread in the main file throws and leaves the frames of the last stop. */
  lemma FramesAreStale(t: Target, dwarf: FunctionIndex.Dwarf, out: FunctionIndex.Built, ranges: seq<byte>, describe: Dies.Die -> Function,
                       start: Position, currentPc: Option<FileAddr>, n: nat, before: seq<Frame>)
    requires FindsFunctions(t, dwarf, out, ranges, describe)
    requires out.error.Some? || (out.entries != [] && forall e :: e in out.entries ==> dwarf.LowOnly(e))
    requires EndsWithin(t, start, n) && start.file.Some? && start.file.value.elf == t.elf
    ensures ResetError(t, start.file, currentPc).Some? && Shown(t, start, currentPc, n, before) == before
  {
    var file := start.file.value;
    var q := DieAddresses.Query(0, ranges, file.addr);
    assert IsStackOf(t, dwarf, out, q, describe, file);
    var r :| dwarf.StackAnswers(out, q, r) && t.inlineStack(file) == Described(describe, r);
    FunctionIndex.NoStackAnywhere(dwarf, out, q, r);
  }

  // ----- Line entries -----

  /** Whether a unit's root contains the address, or what parsing or asking it throws. */
  function Answer(units: seq<Dies.Unit>, roots: seq<nat>, ranges: seq<byte>, address: u64, i: nat): Result<bool>
    requires i < |units| == |roots|
  {
    var root :- Dies.DieAt(units[i], roots[i]);
    if root.Null? then Err(OutOfData) else DieAddresses.ContainsAt(units[i], DieAddresses.Query(roots[i], ranges, address), root)
  }

  /** The search goes past the first `i` units. */
  predicate PassedBy(units: seq<Dies.Unit>, roots: seq<nat>, ranges: seq<byte>, address: u64, i: nat)
    requires i <= |units| == |roots|
  {
    forall j :: 0 <= j < i ==> Answer(units, roots, ranges, address, j) == Ok(false)
  }

  /** `compile_unit_containing_address`: the first unit that says yes, nothing when all say no, or the error of the
      first one that says neither. */
  method UnitContaining(units: seq<Dies.Unit>, roots: seq<nat>, ranges: seq<byte>, address: u64) returns (r: Result<Option<nat>>)
    requires |units| == |roots|
    ensures IsUnitOf(units, roots, ranges, address, r)
  {
    for i := 0 to |units|
      invariant PassedBy(units, roots, ranges, address, i)
    {
      var contains := Ask(units, roots, ranges, address, i);
      if contains.Err? {
        assert contains == Err(contains.error);
        assert EndsSearch(units, roots, ranges, address, i, Err(contains.error));
        return Err(contains.error);
      }
      if contains.value {
        assert contains == Ok(true);
        assert EndsSearch(units, roots, ranges, address, i, Ok(Some(i)));
        return Ok(Some(i));
      }
    }
    r := Ok(None);
  }

  method Ask(units: seq<Dies.Unit>, roots: seq<nat>, ranges: seq<byte>, address: u64, i: nat) returns (r: Result<bool>)
    requires i < |units| == |roots|
    ensures r == Answer(units, roots, ranges, address, i)
  {
    var root :- Dies.ParseDie(units[i], roots[i]);
    if root.Null? {
      return Err(OutOfData);
    }
    r := DieAddresses.ContainsAt(units[i], DieAddresses.Query(roots[i], ranges, address), root);
  }

  predicate EndsSearch(units: seq<Dies.Unit>, roots: seq<nat>, ranges: seq<byte>, address: u64, i: nat, r: Result<Option<nat>>)
    requires i < |units| == |roots|
  {
    && PassedBy(units, roots, ranges, address, i)
    && (if r.Ok? then r.value == Some(i) && Answer(units, roots, ranges, address, i) == Ok(true)
        else Answer(units, roots, ranges, address, i) == Err(r.error))
  }

  predicate IsUnitOf(units: seq<Dies.Unit>, roots: seq<nat>, ranges: seq<byte>, address: u64, r: Result<Option<nat>>)
    requires |units| == |roots|
  {
    if r == Ok(None) then PassedBy(units, roots, ranges, address, |units|)
    else exists i :: 0 <= i < |units| && EndsSearch(units, roots, ranges, address, i, r)
  }

  /** The root of a unit has a low address and no ranges. In a unit that has been loaded, the low address is not of
      the form of an address, as `UnitLoading` says. */
  predicate HasLowRoot(u: Dies.Unit, root: nat) {
    && Dies.DieAt(u, root).Ok? && Dies.DieAt(u, root).value.Entry?
    && DieAddresses.AttrOf(u, Dies.DieAt(u, root).value, DieAddresses.AT_LOW_PC).Some?
    && DieAddresses.AttrOf(u, Dies.DieAt(u, root).value, DieAddresses.AT_RANGES).None?
  }

  /** Line entries are looked up in the unit of the address. */
  ghost predicate FindsLines(t: Target, units: seq<Dies.Unit>, roots: seq<nat>, ranges: seq<byte>)
    requires |units| == |roots|
  {
    forall file: FileAddr :: file.elf == t.elf ==> IsLineOf(t, units, roots, ranges, file)
  }

  ghost predicate IsLineOf(t: Target, units: seq<Dies.Unit>, roots: seq<nat>, ranges: seq<byte>, file: FileAddr)
    requires |units| == |roots|
  {
    exists r :: IsUnitOf(units, roots, ranges, file.addr, r)
                && (r.Err? ==> t.line(file) == Err(r.error)) && (r == Ok(None) ==> t.line(file) == Ok(None))
  }

  lemma LowRootThrows(units: seq<Dies.Unit>, roots: seq<nat>, ranges: seq<byte>, address: u64, r: Result<Option<nat>>)
    requires |units| == |roots| && units != [] && HasLowRoot(units[0], roots[0]) && IsUnitOf(units, roots, ranges, address, r)
    ensures r.Err?
  {
    assert Answer(units, roots, ranges, address, 0).Err? by {
      DieAddresses.NoAddresses(units[0], roots[0], DieAddresses.AT_LOW_PC);
    }
  }

  /** When the first unit's root has a low address and no ranges, no line entry can be looked up, and `unwind` shows
      no frame at all: it throws before the first one, wherever the thread stands in a function. */
  lemma NoFramesWithALowRoot(t: Target, units: seq<Dies.Unit>, roots: seq<nat>, ranges: seq<byte>, start: Position, n: nat)
    requires |units| == |roots| && units != [] && HasLowRoot(units[0], roots[0]) && FindsLines(t, units, roots, ranges)
    requires EndsWithin(t, start, n)
    ensures FramesOf(t, Walk(t, start, n)) + Tail(t, start, n) == [] && (Starts(t, start) ==> Failure(t, start, n).Some?)
  {
    if Starts(t, start) {
      var file := start.file.value;
      assert IsLineOf(t, units, roots, ranges, file);
      var r :| IsUnitOf(units, roots, ranges, file.addr, r) && (r.Err? ==> t.line(file) == Err(r.error));
      LowRootThrows(units, roots, ranges, file.addr, r);
    }
  }
}
