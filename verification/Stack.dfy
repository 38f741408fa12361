/** Backtraces: physical frames from unwinding, each expanded into the functions inlined there. What the
    debug information and the tracee answer is a parameter, failures included. */
module Stacks {
  import opened Words
  import opened TraceeMemory
  import Cfi
  import opened UnwindRules

  type Context = Cfi.Context

  datatype FileAddr = FileAddr(elf: nat, addr: u64)

  datatype Location = Location(file: nat, line: nat)

  /** A function or inlined subroutine: where it starts, and for an inlined one its call site. Asking for either
      can throw. */
  datatype Function = Function(die: nat, lowPc: Result<FileAddr>, callSite: Result<Location>)

  datatype LineEntry = LineEntry(address: FileAddr, location: Location)

  datatype Frame = Frame(regs: Registers, report: u64, func: Function, inlined: bool, location: Option<Location>)

  /** What unwinding one frame returns, and the registers passed to it as it leaves them. */
  datatype Unwound = Unwound(result: Result<Registers>, updated: Registers)

  /** The target: its main file, address translation, the inline stack and the line entry at an address,
      the call-frame unwinder and the instruction pointer of a register file. */
  datatype Target = Target(
    elf: nat,
    toFile: u64 -> Option<FileAddr>,
    toVirt: FileAddr -> u64,
    inlineStack: FileAddr -> Result<seq<Function>>,
    line: FileAddr -> Result<Option<LineEntry>>,
    unwind: (FileAddr, Registers) -> Unwound,
    rip: Registers -> Result<u64>)

  // ----- The frames of one physical frame -----

  datatype Position = Position(pc: u64, file: Option<FileAddr>, regs: Registers)

  /** The inline stack, empty also where looking it up throws. */
  function StackAt(t: Target, file: Option<FileAddr>): seq<Function> {
    if file.Some? && t.inlineStack(file.value).Ok? then t.inlineStack(file.value).value else []
  }

  function StackError(t: Target, file: Option<FileAddr>): Option<Error> {
    if file.Some? && t.inlineStack(file.value).Err? then Some(t.inlineStack(file.value).error) else None
  }

  /** How many frames are pushed for an inline stack, and the error that ends this, if one does. A call site that
      cannot be found leaves its frame behind. */
  datatype Reach = Reach(count: nat, error: Option<Error>)

  function ReachFrom(stack: seq<Function>, j: nat): (r: Reach)
    requires 0 < j <= |stack|
    ensures r.count <= |stack| && (r.error.None? ==> r.count == |stack|)
    decreases |stack| - j
  {
    if j == |stack| then Reach(j, None)
    else
      var inner := stack[|stack| - j];
      if inner.lowPc.Err? then Reach(j, Some(inner.lowPc.error))
      else if inner.callSite.Err? then Reach(j + 1, Some(inner.callSite.error))
      else ReachFrom(stack, j + 1)
  }

  function ReachOf(t: Target, file: FileAddr, stack: seq<Function>): (r: Reach)
    requires stack != []
    ensures r.count <= |stack| && (r.error.None? ==> r.count == |stack|)
  {
    if t.line(file).Err? then Reach(0, Some(t.line(file).error)) else ReachFrom(stack, 1)
  }

  function BaseReport(t: Target, file: FileAddr): u64 {
    if t.line(file).Ok? && t.line(file).value.Some? then t.toVirt(t.line(file).value.value.address) else t.toVirt(file)
  }

  function BaseLocation(t: Target, file: FileAddr): Option<Location> {
    if t.line(file).Ok? && t.line(file).value.Some? then Some(t.line(file).value.value.location) else None
  }

  function StartOf(t: Target, f: Function): u64 {
    if f.lowPc.Ok? then t.toVirt(f.lowPc.value) else 0
  }

  function SiteOf(f: Function): Option<Location> {
    if f.callSite.Ok? then Some(f.callSite.value) else None
  }

  /** The `j`th frame of a group, counted from the innermost function. */
  function FrameAt(t: Target, file: FileAddr, regs: Registers, stack: seq<Function>, j: nat): Frame
    requires j < |stack|
  {
    var k := |stack| - 1 - j;
    if j == 0 then Frame(regs, BaseReport(t, file), stack[k], |stack| > 1, BaseLocation(t, file))
    else Frame(regs, StartOf(t, stack[k + 1]), stack[k], k != 0, SiteOf(stack[k + 1]))
  }

  /** The frames as pushed, all with the same registers. */
  function PushedFrames(t: Target, file: FileAddr, regs: Registers, stack: seq<Function>, n: nat): (g: seq<Frame>)
    requires n <= |stack|
    ensures |g| == n && forall j :: 0 <= j < n ==> g[j] == FrameAt(t, file, regs, stack, j)
  {
    if n == 0 then [] else PushedFrames(t, file, regs, stack, n - 1) + [FrameAt(t, file, regs, stack, n - 1)]
  }

  /** The last frame of the list, with other registers. */
  function Updated(frames: seq<Frame>, regs: Registers): (r: seq<Frame>)
    requires frames != []
    ensures |r| == |frames|
  {
    frames[|frames| - 1 := frames[|frames| - 1].(regs := regs)]
  }

  /** A turn of the loop starts here: a nonzero address in the main file, inside some function. */
  predicate Starts(t: Target, p: Position) {
    p.pc != 0 && p.file.Some? && p.file.value.elf == t.elf && StackAt(t, p.file) != []
  }

  /** There is a whole physical frame here: no lookup of its group throws. */
  predicate Continues(t: Target, p: Position) {
    Starts(t, p) && ReachOf(t, p.file.value, StackAt(t, p.file)).error.None?
  }

  /** The group of a physical frame once its caller has been unwound. */
  function Group(t: Target, p: Position): (g: seq<Frame>)
    requires Continues(t, p)
    ensures |g| == |StackAt(t, p.file)| > 0
  {
    var stack := StackAt(t, p.file);
    Updated(PushedFrames(t, p.file.value, p.regs, stack, |stack|), t.unwind(p.file.value, p.regs).updated)
  }

  /** What a turn leaves behind in which a lookup throws. */
  function Broken(t: Target, p: Position): (g: seq<Frame>)
    ensures |g| <= |StackAt(t, p.file)|
  {
    if Starts(t, p) then
      var stack := StackAt(t, p.file);
      PushedFrames(t, p.file.value, p.regs, stack, ReachOf(t, p.file.value, stack).count)
    else []
  }

  /** The error of the turn after the last whole physical frame. */
  function EndError(t: Target, p: Position): Option<Error> {
    if p.pc == 0 || p.file.None? || p.file.value.elf != t.elf then None
    else if StackAt(t, p.file) == [] then StackError(t, p.file)
    else ReachOf(t, p.file.value, StackAt(t, p.file)).error
  }

  // ----- The physical frames -----

  /** The caller, at the byte before its return address. */
  function Next(t: Target, p: Position): Result<Position>
    requires p.file.Some?
  {
    var regs :- t.unwind(p.file.value, p.regs).result;
    var rip :- t.rip(regs);
    var pc := Wrap64(rip - 1);
    Ok(Position(pc, t.toFile(pc), regs))
  }

  /** The loop over callers ends after at most `n` frames. */
  predicate EndsWithin(t: Target, p: Position, n: nat)
    decreases n
  {
    Continues(t, p) ==> n > 0 && (Next(t, p).Ok? ==> EndsWithin(t, Next(t, p).value, n - 1))
  }

  /** The positions of the physical frames, innermost first. */
  function Walk(t: Target, p: Position, n: nat): (w: seq<Position>)
    requires EndsWithin(t, p, n)
    ensures |w| <= n && (w == [] <==> !Continues(t, p))
    ensures forall i :: 0 <= i < |w| ==> Continues(t, w[i])
    decreases n
  {
    if !Continues(t, p) then []
    else match Next(t, p)
      case Err(_) => [p]
      case Ok(q) => [p] + Walk(t, q, n - 1)
  }

  /** The error that ends the walk, if one does. */
  function Failure(t: Target, p: Position, n: nat): Option<Error>
    requires EndsWithin(t, p, n)
    decreases n
  {
    if !Continues(t, p) then EndError(t, p)
    else match Next(t, p)
      case Err(e) => Some(e)
      case Ok(q) => Failure(t, q, n - 1)
  }

  /** The frames of the turn in which a lookup throws, if the walk ends so. */
  function Tail(t: Target, p: Position, n: nat): seq<Frame>
    requires EndsWithin(t, p, n)
    decreases n
  {
    if !Continues(t, p) then Broken(t, p)
    else match Next(t, p)
      case Err(_) => []
      case Ok(q) => Tail(t, q, n - 1)
  }

  /** The bound is not part of the meaning. */
  lemma {:induction false} WalkIsUnique(t: Target, p: Position, m: nat, n: nat)
    requires EndsWithin(t, p, m) && EndsWithin(t, p, n)
    ensures Walk(t, p, m) == Walk(t, p, n) && Failure(t, p, m) == Failure(t, p, n) && Tail(t, p, m) == Tail(t, p, n)
    decreases m
  {
    if Continues(t, p) && Next(t, p).Ok? {
      WalkIsUnique(t, Next(t, p).value, m - 1, n - 1);
    }
  }

  /** Each position of the walk is the caller of the one before it. */
  lemma {:induction false} WalkFollowsCallers(t: Target, p: Position, n: nat, i: nat)
    requires EndsWithin(t, p, n) && i < |Walk(t, p, n)|
    ensures i == 0 ==> Walk(t, p, n)[0] == p
    ensures i > 0 ==> Next(t, Walk(t, p, n)[i - 1]) == Ok(Walk(t, p, n)[i])
    decreases n
  {
    if i > 0 {
      var q := Next(t, p).value;
      var rest := Walk(t, q, n - 1);
      assert Walk(t, p, n) == [p] + rest;
      WalkFollowsCallers(t, q, n - 1, i - 1);
    }
  }

  /** Every caller lies higher on the stack. */
  ghost predicate Rises(t: Target, sp: Registers -> u64) {
    forall p: Position :: Continues(t, p) && Next(t, p).Ok? ==> sp(Next(t, p).value.regs) > sp(p.regs)
  }

  /** Unwinding ends on every stack that rises. */
  lemma {:induction false} RisingStackEnds(t: Target, sp: Registers -> u64, p: Position)
    requires Rises(t, sp)
    ensures EndsWithin(t, p, TWO_64 - sp(p.regs))
    decreases TWO_64 - sp(p.regs)
  {
    if Continues(t, p) && Next(t, p).Ok? {
      var q := Next(t, p).value;
      RisingStackEnds(t, sp, q);
      EndsLater(t, q, TWO_64 - sp(q.regs), TWO_64 - sp(p.regs) - 1);
    }
  }

  lemma {:induction false} EndsLater(t: Target, p: Position, m: nat, n: nat)
    requires EndsWithin(t, p, m) && m <= n
    ensures EndsWithin(t, p, n)
    decreases m
  {
    if Continues(t, p) && Next(t, p).Ok? {
      EndsLater(t, Next(t, p).value, m - 1, n - 1);
    }
  }

  /** A frame that is its own caller is followed for ever: the loop has no other guard. */
  lemma {:induction false} OwnCallerNeverEnds(t: Target, p: Position, n: nat)
    requires Continues(t, p) && Next(t, p) == Ok(p)
    ensures !EndsWithin(t, p, n)
    decreases n
  {
    if n > 0 {
      OwnCallerNeverEnds(t, p, n - 1);
    }
  }

  // ----- The frame list -----

  ghost predicate AllContinue(t: Target, w: seq<Position>) {
    forall i :: 0 <= i < |w| ==> Continues(t, w[i])
  }

  /** The groups of these physical frames, one after another. */
  ghost function FramesOf(t: Target, w: seq<Position>): seq<Frame>
    requires AllContinue(t, w)
  {
    if w == [] then [] else Group(t, w[0]) + FramesOf(t, w[1..])
  }

  lemma UpdatedAppended(frames: seq<Frame>, g: seq<Frame>, regs: Registers)
    requires g != []
    ensures Updated(frames + g, regs) == frames + Updated(g, regs)
  {
  }

  /** Everything that the loop pushes from here on. */
  ghost function Pushing(t: Target, p: Position, n: nat): seq<Frame>
    requires EndsWithin(t, p, n)
    decreases n
  {
    if !Continues(t, p) then Broken(t, p)
    else Group(t, p) + if Next(t, p).Ok? then Pushing(t, Next(t, p).value, n - 1) else []
  }

  /** It is the groups of the physical frames, innermost first, and what a throwing turn leaves. */
  lemma {:induction false} PushingIsGroups(t: Target, p: Position, n: nat)
    requires EndsWithin(t, p, n)
    ensures Pushing(t, p, n) == FramesOf(t, Walk(t, p, n)) + Tail(t, p, n)
    decreases n
  {
    if Continues(t, p) {
      var rest := if Next(t, p).Ok? then Walk(t, Next(t, p).value, n - 1) else [];
      assert Walk(t, p, n) == [p] + rest;
      FramesOfCons(t, p, rest);
      if Next(t, p).Ok? {
        PushingIsGroups(t, Next(t, p).value, n - 1);
        Regroup(Group(t, p), FramesOf(t, rest), Tail(t, p, n));
      }
    }
  }

  lemma FramesOfCons(t: Target, p: Position, rest: seq<Position>)
    requires Continues(t, p) && AllContinue(t, rest)
    ensures AllContinue(t, [p] + rest) && FramesOf(t, [p] + rest) == Group(t, p) + FramesOf(t, rest)
    ensures rest == [] ==> FramesOf(t, [p] + rest) == Group(t, p)
  {
    assert ([p] + rest)[1..] == rest;
  }

  lemma Regroup(a: seq<Frame>, b: seq<Frame>, c: seq<Frame>)
    ensures a + (b + c) == (a + b) + c
  {
  }

  // ----- The inline height -----

  predicate StartsAt(f: Function, pc: Option<FileAddr>) {
    f.lowPc.Ok? && Some(f.lowPc.value) == pc
  }

  /** How many of the innermost functions start at `pc`. */
  function Height(stack: seq<Function>, pc: Option<FileAddr>): (h: nat)
    ensures h <= |stack|
    ensures forall k :: |stack| - h <= k < |stack| ==> StartsAt(stack[k], pc)
    ensures h < |stack| ==> !StartsAt(stack[|stack| - 1 - h], pc)
  {
    if stack != [] && StartsAt(stack[|stack| - 1], pc) then 1 + Height(stack[..|stack| - 1], pc) else 0
  }

  /** The error of counting: looking up the stack throws, or the start of the first function that does not count. */
  function ResetError(t: Target, file: Option<FileAddr>, pc: Option<FileAddr>): Option<Error> {
    var stack := StackAt(t, file);
    var h := Height(stack, pc);
    if StackError(t, file).Some? then StackError(t, file)
    else if h < |stack| && stack[|stack| - 1 - h].lowPc.Err? then Some(stack[|stack| - 1 - h].lowPc.error)
    else None
  }

  lemma HeightStep(stack: seq<Function>, pc: Option<FileAddr>, i: nat)
    requires 0 < i <= |stack| && StartsAt(stack[i - 1], pc)
    ensures Height(stack[..i], pc) == 1 + Height(stack[..i - 1], pc)
  {
    assert stack[..i][..i - 1] == stack[..i - 1];
  }

  // ----- The object -----

  class Stack {
    var frames: seq<Frame>
    var inlineHeight: nat
    var currentFrame: nat

    constructor ()
      ensures frames == [] && inlineHeight == 0 && currentFrame == 0
    {
      frames, inlineHeight, currentFrame := [], 0, 0;
    }

    /** `reset_inline_height`. The inline stack is that of this thread and `pc` that of the current one. */
    method ResetInlineHeight(t: Target, file: Option<FileAddr>, pc: Option<FileAddr>) returns (error: Option<Error>)
      modifies this
      ensures error == ResetError(t, file, pc) && frames == old(frames) && currentFrame == old(currentFrame)
      ensures inlineHeight == if StackError(t, file).Some? then old(inlineHeight) else Height(StackAt(t, file), pc)
    {
      var stack := [];
      if file.Some? {
        var found := t.inlineStack(file.value);
        if found.Err? {
          return Some(found.error);
        }
        stack := found.value;
      }
      error := CountHeight(stack, pc);
    }

    method CountHeight(stack: seq<Function>, pc: Option<FileAddr>) returns (error: Option<Error>)
      modifies this
      ensures inlineHeight == Height(stack, pc) && frames == old(frames) && currentFrame == old(currentFrame)
      ensures var h := Height(stack, pc);
              error == if h < |stack| && stack[|stack| - 1 - h].lowPc.Err? then Some(stack[|stack| - 1 - h].lowPc.error) else None
    {
      inlineHeight := 0;
      var i := |stack|;
      assert stack[..i] == stack;
      while i > 0 && stack[i - 1].lowPc.Ok? && Some(stack[i - 1].lowPc.value) == pc
        invariant 0 <= i <= |stack| && inlineHeight == |stack| - i
        invariant Height(stack, pc) == inlineHeight + Height(stack[..i], pc)
        invariant frames == old(frames) && currentFrame == old(currentFrame)
      {
        HeightStep(stack, pc, i);
        inlineHeight := inlineHeight + 1;
        i := i - 1;
      }
      error := if i > 0 && stack[i - 1].lowPc.Err? then Some(stack[i - 1].lowPc.error) else None;
    }

    method CreateBaseFrame(t: Target, regs: Registers, stack: seq<Function>, file: FileAddr, inlined: bool) returns (error: Option<Error>)
      requires stack != [] && (inlined <==> |stack| > 1)
      modifies this
      ensures error == if t.line(file).Err? then Some(t.line(file).error) else None
      ensures frames == old(frames) + PushedFrames(t, file, regs, stack, if error.None? then 1 else 0)
      ensures inlineHeight == old(inlineHeight) && currentFrame == old(currentFrame)
    {
      var report := t.toVirt(file);
      var entry := t.line(file);
      if entry.Err? {
        return Some(entry.error);
      }
      if entry.value.Some? {
        report := t.toVirt(entry.value.value.address);
      }
      var location := if entry.value.Some? then Some(entry.value.value.location) else None;
      var frame := Frame(regs, report, stack[|stack| - 1], inlined, location);
      assert PushedFrames(t, file, regs, stack, 1) == [frame];
      frames := frames + [frame];
      error := None;
    }

    method CreateInlineStackFrames(t: Target, regs: Registers, stack: seq<Function>, file: FileAddr, ghost before: seq<Frame>) returns (error: Option<Error>)
      requires stack != [] && frames == before + PushedFrames(t, file, regs, stack, 1)
      modifies this
      ensures error == ReachFrom(stack, 1).error && frames == before + PushedFrames(t, file, regs, stack, ReachFrom(stack, 1).count)
      ensures inlineHeight == old(inlineHeight) && currentFrame == old(currentFrame)
    {
      var i := 1;
      while i < |stack|
        invariant 1 <= i <= |stack| && ReachFrom(stack, 1) == ReachFrom(stack, i)
        invariant frames == before + PushedFrames(t, file, regs, stack, i)
        invariant inlineHeight == old(inlineHeight) && currentFrame == old(currentFrame)
      {
        var k := |stack| - 1 - i;
        if stack[k + 1].lowPc.Err? {
          return Some(stack[k + 1].lowPc.error);
        }
        var frame := Frame(regs, t.toVirt(stack[k + 1].lowPc.value), stack[k], k != 0, None);
        if stack[k + 1].callSite.Err? {
          frames := frames + [frame];
          return Some(stack[k + 1].callSite.error);
        }
        frames := frames + [frame.(location := Some(stack[k + 1].callSite.value))];
        i := i + 1;
      }
      error := None;
    }

    /** Push the group of one physical frame. */
    method CreateFrames(t: Target, regs: Registers, stack: seq<Function>, file: FileAddr) returns (error: Option<Error>)
      requires stack != []
      modifies this
      ensures error == ReachOf(t, file, stack).error
      ensures frames == old(frames) + PushedFrames(t, file, regs, stack, ReachOf(t, file, stack).count)
      ensures inlineHeight == old(inlineHeight) && currentFrame == old(currentFrame)
    {
      error := CreateBaseFrame(t, regs, stack, file, |stack| > 1);
      if error.None? && |stack| > 1 {
        error := CreateInlineStackFrames(t, regs, stack, file, old(frames));
      }
    }

    /** One turn of the loop at a function: push the group, unwind the last frame and find the caller. */
    method PushGroup(t: Target, p: Position) returns (next: Result<Position>)
      requires Starts(t, p)
      modifies this
      ensures Continues(t, p) ==> frames == old(frames) + Group(t, p) && next == Next(t, p)
      ensures !Continues(t, p) ==> frames == old(frames) + Broken(t, p) && EndError(t, p).Some? && next == Err(EndError(t, p).value)
      ensures inlineHeight == old(inlineHeight) && currentFrame == old(currentFrame)
    {
      var file, stack := p.file.value, StackAt(t, p.file);
      var error := CreateFrames(t, p.regs, stack, file);
      if error.Some? {
        return Err(error.value);
      }
      var unwound := t.unwind(file, frames[|frames| - 1].regs);
      UpdatedAppended(old(frames), PushedFrames(t, file, p.regs, stack, |stack|), unwound.updated);
      frames := Updated(frames, unwound.updated);
      var regs :- unwound.result;
      var rip: int :- t.rip(regs);
      var pc := Wrap64(rip - 1);
      next := Ok(Position(pc, t.toFile(pc), regs));
    }

    /** The loop over the callers. */
    method PushGroups(t: Target, start: Position, ghost n: nat) returns (error: Option<Error>)
      requires EndsWithin(t, start, n) && frames == []
      modifies this
      ensures frames == Pushing(t, start, n) && error == Failure(t, start, n)
      ensures inlineHeight == old(inlineHeight) && currentFrame == old(currentFrame)
    {
      var p := start;
      ghost var whole, failure, left := Pushing(t, start, n), Failure(t, start, n), n;
      while p.pc != 0 && p.file.Some? && p.file.value.elf == t.elf
        invariant EndsWithin(t, p, left) && whole == frames + Pushing(t, p, left) && failure == Failure(t, p, left)
        invariant inlineHeight == old(inlineHeight) && currentFrame == old(currentFrame)
        decreases left
      {
        var stack := t.inlineStack(p.file.value);
        if stack.Err? {
          return Some(stack.error);
        }
        if stack.value == [] {
          return None;
        }
        TurnStep(t, p, left, frames);
        var next := PushGroup(t, p);
        if next.Err? {
          return Some(next.error);
        }
        left := left - 1;
        p := next.value;
      }
      error := None;
    }

    /** `unwind`. When counting the inline height throws, nothing but the height changes: the frames are those of
        the last stop. Otherwise they are the groups of the physical frames, innermost first, and what a lookup
        that throws leaves of one more. */
    method Unwind(t: Target, start: Position, currentPc: Option<FileAddr>, ghost n: nat) returns (error: Option<Error>)
      requires EndsWithin(t, start, n)
      modifies this
      ensures frames == Shown(t, start, currentPc, n, old(frames))
      ensures var reset := ResetError(t, start.file, currentPc);
              && error == (if reset.Some? then reset else Failure(t, start, n))
              && currentFrame == (if reset.Some? then old(currentFrame) else inlineHeight)
              && inlineHeight == (if StackError(t, start.file).Some? then old(inlineHeight) else Height(StackAt(t, start.file), currentPc))
    {
      error := ResetInlineHeight(t, start.file, currentPc);
      if error.Some? {
        return;
      }
      currentFrame := inlineHeight;
      frames := [];
      error := PushGroups(t, start, n);
      PushingIsGroups(t, start, n);
    }
  }

  /** What a turn adds to the frames so far. */
  lemma TurnStep(t: Target, p: Position, n: nat, frames: seq<Frame>)
    requires EndsWithin(t, p, n) && Starts(t, p)
    ensures !Continues(t, p) ==> Pushing(t, p, n) == Broken(t, p) && Failure(t, p, n) == EndError(t, p)
    ensures Continues(t, p) && Next(t, p).Err? ==>
              frames + Pushing(t, p, n) == frames + Group(t, p) && Failure(t, p, n) == Some(Next(t, p).error)
    ensures Continues(t, p) && Next(t, p).Ok? ==>
              var q := Next(t, p).value;
              EndsWithin(t, q, n - 1) && frames + Pushing(t, p, n) == (frames + Group(t, p)) + Pushing(t, q, n - 1)
              && Failure(t, p, n) == Failure(t, q, n - 1)
  {
    if Continues(t, p) {
      if Next(t, p).Ok? {
        TurnGoesOn(t, p, n, frames, Next(t, p).value);
      } else {
        assert Group(t, p) + [] == Group(t, p);
      }
    }
  }

  lemma TurnGoesOn(t: Target, p: Position, n: nat, frames: seq<Frame>, q: Position)
    requires EndsWithin(t, p, n) && Continues(t, p) && Next(t, p) == Ok(q)
    ensures EndsWithin(t, q, n - 1) && frames + Pushing(t, p, n) == (frames + Group(t, p)) + Pushing(t, q, n - 1)
    ensures Failure(t, p, n) == Failure(t, q, n - 1)
  {
    Regroup(frames, Group(t, p), Pushing(t, q, n - 1));
  }

  /** The frames after `unwind`, given those before. */
  ghost function Shown(t: Target, start: Position, currentPc: Option<FileAddr>, n: nat, before: seq<Frame>): seq<Frame>
    requires EndsWithin(t, start, n)
  {
    if ResetError(t, start.file, currentPc).Some? then before else FramesOf(t, Walk(t, start, n)) + Tail(t, start, n)
  }

  /** Whatever the frames were before, they are the groups and the rest of one that is broken off, if and only if
      counting the inline height does not throw. */
  lemma FramesAreNewExactly(t: Target, start: Position, currentPc: Option<FileAddr>, n: nat)
    requires EndsWithin(t, start, n)
    ensures (forall before :: Shown(t, start, currentPc, n, before) == FramesOf(t, Walk(t, start, n)) + Tail(t, start, n))
            <==> ResetError(t, start.file, currentPc).None?
  {
    if ResetError(t, start.file, currentPc).Some? {
      var groups := FramesOf(t, Walk(t, start, n)) + Tail(t, start, n);
      var other := groups + [Frame(start.regs, 0, Function(0, Err(NotFound), Err(NotFound)), false, None)];
      assert Shown(t, start, currentPc, n, other) == other && |other| != |groups|;
    }
  }

  // ----- What a backtrace shows -----

  function Reversed(s: seq<Function>): (r: seq<Function>)
    ensures |r| == |s| && forall i :: 0 <= i < |s| ==> r[i] == s[|s| - 1 - i]
  {
    if s == [] then [] else [s[|s| - 1]] + Reversed(s[..|s| - 1])
  }

  ghost function FunctionsOf(frames: seq<Frame>): (r: seq<Function>)
    ensures |r| == |frames|
  {
    seq(|frames|, i requires 0 <= i < |frames| => frames[i].func)
  }

  /** The functions of the physical frames, each innermost first. */
  ghost function AllReversed(t: Target, w: seq<Position>): seq<Function> {
    if w == [] then [] else Reversed(StackAt(t, w[0].file)) + AllReversed(t, w[1..])
  }

  lemma GroupFunctions(t: Target, p: Position)
    requires Continues(t, p)
    ensures FunctionsOf(Group(t, p)) == Reversed(StackAt(t, p.file))
  {
  }

  lemma FunctionsOfAppend(a: seq<Frame>, b: seq<Frame>)
    ensures FunctionsOf(a + b) == FunctionsOf(a) + FunctionsOf(b)
  {
  }

  /** The functions shown are the reversed inline stacks, one after another. */
  lemma {:induction false} FunctionsAreReversedStacks(t: Target, w: seq<Position>)
    requires AllContinue(t, w)
    ensures FunctionsOf(FramesOf(t, w)) == AllReversed(t, w)
    decreases |w|
  {
    if w != [] {
      FunctionsAreReversedStacks(t, w[1..]);
      GroupFunctions(t, w[0]);
      FunctionsOfAppend(Group(t, w[0]), FramesOf(t, w[1..]));
    }
  }

  /** The frames not marked as inlined. */
  ghost function NotInlined(frames: seq<Frame>): seq<Frame> {
    if frames == [] then [] else (if frames[0].inlined then [] else [frames[0]]) + NotInlined(frames[1..])
  }

  lemma {:induction false} NotInlinedAppend(a: seq<Frame>, b: seq<Frame>)
    ensures NotInlined(a + b) == NotInlined(a) + NotInlined(b)
    decreases a
  {
    if a == [] {
      assert a + b == b;
    } else {
      var one := if a[0].inlined then [] else [a[0]];
      NotInlinedAppend(a[1..], b);
      assert (a + b)[1..] == a[1..] + b && (a + b)[0] == a[0];
      Regroup(one, NotInlined(a[1..]), NotInlined(b));
    }
  }

  lemma {:induction false} AllInlined(frames: seq<Frame>)
    requires forall i :: 0 <= i < |frames| ==> frames[i].inlined
    ensures NotInlined(frames) == []
    decreases frames
  {
    if frames != [] {
      AllInlined(frames[1..]);
    }
  }

  /** Exactly the last frame of a group is not inlined, and it shows the outermost function. */
  lemma GroupHasOnePhysical(t: Target, p: Position)
    requires Continues(t, p)
    ensures var g := Group(t, p); NotInlined(g) == [g[|g| - 1]]
    ensures var g := Group(t, p);
            g[|g| - 1].func == StackAt(t, p.file)[0] && g[|g| - 1].regs == t.unwind(p.file.value, p.regs).updated
  {
    var g := Group(t, p);
    var init, last := g[..|g| - 1], [g[|g| - 1]];
    AllInlined(init);
    NotInlinedAppend(init, last);
    assert init + last == g && last[1..] == [];
  }

  /** The frames not marked as inlined are the physical frames in order: one for each, showing its
      outermost function, with the registers that unwinding left there. */
  lemma {:induction false} OnePhysicalFrameEach(t: Target, w: seq<Position>)
    requires AllContinue(t, w)
    ensures |NotInlined(FramesOf(t, w))| == |w|
    ensures forall i :: 0 <= i < |w| ==>
              && NotInlined(FramesOf(t, w))[i].func == StackAt(t, w[i].file)[0]
              && NotInlined(FramesOf(t, w))[i].regs == t.unwind(w[i].file.value, w[i].regs).updated
    decreases |w|
  {
    if w != [] {
      OnePhysicalFrameEach(t, w[1..]);
      GroupHasOnePhysical(t, w[0]);
      NotInlinedAppend(Group(t, w[0]), FramesOf(t, w[1..]));
      var one, more := NotInlined(Group(t, w[0])), NotInlined(FramesOf(t, w[1..]));
      assert forall i :: 0 < i < |w| ==> (one + more)[i] == more[i - 1] && w[i] == w[1..][i - 1];
    }
  }

  /** Unwinding is what the unwind rules make of it: a context from the frame description of the address, or
      the error that there is none, applied to the registers as `UnwindRules.Execute` does. */
  ghost predicate UnwindsByRules(t: Target, table: Table, mem: Memory, contexts: FileAddr -> Result<Context>) {
    forall file, regs: Registers :: TableFits(table, |regs.user|) ==> IsOutcome(table, mem, contexts(file), regs, t.unwind(file, regs))
  }

  ghost predicate IsOutcome(table: Table, mem: Memory, context: Result<Context>, regs: Registers, u: Unwound)
    requires TableFits(table, |regs.user|)
  {
    match context
    case Err(e) => u == Unwound(Err(e), regs)
    case Ok(c) => exists effects, order :: Outcome(table, mem, c.rules, c.cfa, regs, u.result, u.updated, effects, order)
  }

  /** The frames of one group share their registers, apart from the CFA of the last one. */
  lemma GroupSharesRegisters(t: Target, table: Table, mem: Memory, contexts: FileAddr -> Result<Context>, p: Position, j: nat)
    requires UnwindsByRules(t, table, mem, contexts) && TableFits(table, |p.regs.user|)
    requires Continues(t, p) && j < |Group(t, p)|
    ensures Group(t, p)[j].regs.(cfa := p.regs.cfa) == p.regs
    ensures j < |Group(t, p)| - 1 ==> Group(t, p)[j].regs == p.regs
  {
    assert IsOutcome(table, mem, contexts(p.file.value), p.regs, t.unwind(p.file.value, p.regs));
  }

  /** The last frame's CFA is the one that its context gives, if the context and the CFA can be computed. */
  lemma LastFrameHasCfa(t: Target, table: Table, mem: Memory, contexts: FileAddr -> Result<Context>, p: Position)
    requires UnwindsByRules(t, table, mem, contexts) && TableFits(table, |p.regs.user|) && Continues(t, p)
    ensures var g, context := Group(t, p), contexts(p.file.value);
            g[|g| - 1].regs.cfa == if context.Ok? && CfaOf(table, p.regs, context.value.cfa).Ok?
                                   then CfaOf(table, p.regs, context.value.cfa).value else p.regs.cfa
  {
    assert IsOutcome(table, mem, contexts(p.file.value), p.regs, t.unwind(p.file.value, p.regs));
  }

  /** Callers' registers fill the same user area. */
  lemma CallerHasSameArea(t: Target, table: Table, mem: Memory, contexts: FileAddr -> Result<Context>, p: Position)
    requires UnwindsByRules(t, table, mem, contexts) && TableFits(table, |p.regs.user|)
    requires Continues(t, p) && Next(t, p).Ok?
    ensures |Next(t, p).value.regs.user| == |p.regs.user|
  {
    assert IsOutcome(table, mem, contexts(p.file.value), p.regs, t.unwind(p.file.value, p.regs));
  }

  /** So all groups of the walk share their registers in this way. */
  lemma {:induction false} WalkHasSameArea(t: Target, table: Table, mem: Memory, contexts: FileAddr -> Result<Context>, start: Position, n: nat, i: nat)
    requires UnwindsByRules(t, table, mem, contexts) && TableFits(table, |start.regs.user|)
    requires EndsWithin(t, start, n) && i < |Walk(t, start, n)|
    ensures |Walk(t, start, n)[i].regs.user| == |start.regs.user|
    decreases i
  {
    WalkFollowsCallers(t, start, n, i);
    if i > 0 {
      WalkHasSameArea(t, table, mem, contexts, start, n, i - 1);
      CallerHasSameArea(t, table, mem, contexts, Walk(t, start, n)[i - 1]);
    }
  }

  // ----- The visible frames -----

  /** There are the frames of the first group, and more exactly when there are callers. */
  lemma CallersAdd(t: Target, w: seq<Position>)
    requires w != [] && AllContinue(t, w)
    ensures |FramesOf(t, w)| >= |StackAt(t, w[0].file)| && (|FramesOf(t, w)| > |StackAt(t, w[0].file)| <==> |w| > 1)
  {
    if |w| > 1 {
      assert FramesOf(t, w[1..]) == Group(t, w[1]) + FramesOf(t, w[1..][1..]);
    }
  }

  /** After an `unwind` that counts the height, `frames()` skips no more than there is if and only if the height
      is zero, or the thread stands in a whole physical frame, or enough is left of a broken one; otherwise its
      length wraps around. The current frame exists if and only if a function of that physical frame does not
      start at the current address or frames of a caller follow, or enough is left of a broken one. */
  lemma VisibleFramesExactly(t: Target, start: Position, currentPc: Option<FileAddr>, n: nat)
    requires EndsWithin(t, start, n)
    ensures var w, stack, tail := Walk(t, start, n), StackAt(t, start.file), Tail(t, start, n);
            var size, height := |FramesOf(t, w) + tail|, Height(stack, currentPc);
            && (height <= size <==> height == 0 || Continues(t, start) || height <= |tail|)
            && (height < size <==> if Continues(t, start)
                                   then (exists k :: 0 <= k < |stack| && !StartsAt(stack[k], currentPc)) || |w| > 1 || tail != []
                                   else height < |tail|)
  {
    var w, stack := Walk(t, start, n), StackAt(t, start.file);
    var height := Height(stack, currentPc);
    if Continues(t, start) {
      WalkFollowsCallers(t, start, n, 0);
      CallersAdd(t, w);
      if height < |stack| {
        assert !StartsAt(stack[|stack| - 1 - height], currentPc);
      }
    }
  }

  /** At the first instruction of a function its own frames are all skipped: the current frame is the
      innermost one of its caller. */
  lemma EntryShowsTheCaller(t: Target, start: Position, n: nat)
    requires EndsWithin(t, start, n) && |Walk(t, start, n)| > 1
    requires forall k :: 0 <= k < |StackAt(t, start.file)| ==> StartsAt(StackAt(t, start.file)[k], start.file)
    ensures var w, height := Walk(t, start, n), Height(StackAt(t, start.file), start.file);
            height < |FramesOf(t, w)| && FramesOf(t, w)[height] == Group(t, w[1])[0]
  {
    var w := Walk(t, start, n);
    WalkFollowsCallers(t, start, n, 0);
    assert FramesOf(t, w) == Group(t, w[0]) + FramesOf(t, w[1..]);
    assert FramesOf(t, w[1..]) == Group(t, w[1]) + FramesOf(t, w[1..][1..]);
  }
}
