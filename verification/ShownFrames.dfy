/** The frames of a backtrace, one by one, said of the inline stacks and the line entries alone. */
module ShownFrames {
  import opened Words
  import opened Stacks

  /** Here is a physical frame of the main file: its lookups find a function, its line entry or that there is none,
      and the start and the call site of every function but the outermost. */
  predicate IsPhysical(t: Target, p: Position) {
    && p.pc != 0 && p.file.Some? && p.file.value.elf == t.elf
    && t.inlineStack(p.file.value).Ok? && t.line(p.file.value).Ok?
    && var stack := t.inlineStack(p.file.value).value;
       stack != [] && forall k :: 1 <= k < |stack| ==> stack[k].lowPc.Ok? && stack[k].callSite.Ok?
  }

  lemma {:induction false} ReachesAll(stack: seq<Function>, j: nat)
    requires 0 < j <= |stack|
    ensures ReachFrom(stack, j).error.None? <==> forall k :: 1 <= k <= |stack| - j ==> stack[k].lowPc.Ok? && stack[k].callSite.Ok?
    decreases |stack| - j
  {
    if j < |stack| {
      ReachesAll(stack, j + 1);
    }
  }

  lemma ContinuesExactly(t: Target, p: Position)
    ensures Continues(t, p) <==> IsPhysical(t, p)
  {
    if p.file.Some? && t.inlineStack(p.file.value).Ok? && t.inlineStack(p.file.value).value != [] {
      ReachesAll(t.inlineStack(p.file.value).value, 1);
    }
  }

  /** The walk goes through physical frames, and ends where there is no caller or the caller is none. */
  lemma {:induction false} WalkEndsExactly(t: Target, p: Position, n: nat)
    requires EndsWithin(t, p, n)
    ensures forall i :: 0 <= i < |Walk(t, p, n)| ==> IsPhysical(t, Walk(t, p, n)[i])
    ensures var w := Walk(t, p, n);
            if w == [] then !IsPhysical(t, p)
            else IsPhysical(t, w[|w| - 1])
                 && (t.unwind(w[|w| - 1].file.value, w[|w| - 1].regs).result.Ok? ==>
                       Next(t, w[|w| - 1]).Err? || !IsPhysical(t, Next(t, w[|w| - 1]).value))
    decreases n
  {
    ContinuesExactly(t, p);
    if Continues(t, p) && Next(t, p).Ok? {
      var q := Next(t, p).value;
      WalkEndsExactly(t, q, n - 1);
      ContinuesExactly(t, q);
      assert Walk(t, p, n) == [p] + Walk(t, q, n - 1);
    }
  }

  /** A caller stands at the byte before the return address that unwinding its callee gives. */
  lemma CallerIsReturnAddress(t: Target, p: Position, n: nat, i: nat)
    requires EndsWithin(t, p, n) && 0 < i < |Walk(t, p, n)|
    ensures var callee, caller := Walk(t, p, n)[i - 1], Walk(t, p, n)[i];
            && callee.file.Some? && t.unwind(callee.file.value, callee.regs).result == Ok(caller.regs)
            && t.rip(caller.regs).Ok?
            && caller.pc == (if t.rip(caller.regs).value == 0 then 0xffff_ffff_ffff_ffff else t.rip(caller.regs).value - 1)
            && caller.file == t.toFile(caller.pc)
  {
    WalkFollowsCallers(t, p, n, i);
  }

  // ----- The frames -----

  /** Where the group of physical frame `i` starts in the list. */
  function FirstOf(t: Target, w: seq<Position>, i: nat): nat
    requires i <= |w|
  {
    if i == 0 then 0 else |StackAt(t, w[0].file)| + FirstOf(t, w[1..], i - 1)
  }

  lemma {:induction false} GroupLies(t: Target, w: seq<Position>, i: nat, j: nat)
    requires AllContinue(t, w) && i < |w| && j < |StackAt(t, w[i].file)|
    ensures FirstOf(t, w, i) + j < |FramesOf(t, w)| && FramesOf(t, w)[FirstOf(t, w, i) + j] == Group(t, w[i])[j]
    decreases i
  {
    if i > 0 {
      GroupLies(t, w[1..], i - 1, j);
    }
  }

  /** The innermost frame reports the address and the location of its line entry, or its own address and no
      location. */
  predicate ReportsLine(t: Target, file: FileAddr, f: Frame) {
    t.line(file).Ok?
    && match t.line(file).value
       case Some(entry) => f.report == t.toVirt(entry.address) && f.location == Some(entry.location)
       case None => f.report == t.toVirt(file) && f.location == None
  }

  /** Any other reports where the function that the frame before it shows starts, and that function's call site. */
  predicate ReportsCall(t: Target, inner: Function, f: Frame) {
    && inner.lowPc.Ok? && f.report == t.toVirt(inner.lowPc.value)
    && f.location == if inner.callSite.Ok? then Some(inner.callSite.value) else None
  }

  /** Frame `j` of physical frame `i` in the list shows function `j` of the inline stack, counted from the innermost,
      and is inlined unless that is the outermost. */
  lemma FrameShows(t: Target, w: seq<Position>, i: nat, j: nat)
    requires AllContinue(t, w) && i < |w| && j < |StackAt(t, w[i].file)|
    ensures var frames, k := FramesOf(t, w), FirstOf(t, w, i) + j;
            var stack := t.inlineStack(w[i].file.value).value;
            && k < |frames| && frames[k].func == stack[|stack| - 1 - j] && (frames[k].inlined <==> j < |stack| - 1)
            && (j == 0 ==> ReportsLine(t, w[i].file.value, frames[k]))
            && (j > 0 ==> ReportsCall(t, frames[k - 1].func, frames[k]) && frames[k - 1].func.callSite.Ok?)
  {
    ContinuesExactly(t, w[i]);
    GroupLies(t, w, i, j);
    if j > 0 {
      GroupLies(t, w, i, j - 1);
    }
  }

  /** So it is for what a lookup that throws leaves of a group. */
  lemma BrokenShows(t: Target, p: Position, j: nat)
    requires j < |Broken(t, p)|
    ensures var frames, stack := Broken(t, p), StackAt(t, p.file);
            && p.file.Some? && |frames| <= |stack| && frames[j].func == stack[|stack| - 1 - j] && (frames[j].inlined <==> j < |stack| - 1)
            && (j == 0 ==> ReportsLine(t, p.file.value, frames[0]))
            && (j > 0 ==> ReportsCall(t, frames[j - 1].func, frames[j]))
  {
    var stack := StackAt(t, p.file);
    if j > 0 {
      ReachedStarts(stack, 1, j);
    }
  }

  lemma {:induction false} ReachedStarts(stack: seq<Function>, from: nat, j: nat)
    requires 0 < from <= |stack| && j < ReachFrom(stack, from).count && from <= j
    ensures stack[|stack| - j].lowPc.Ok?
    decreases |stack| - from
  {
    if from < |stack| && from < j {
      ReachedStarts(stack, from + 1, j);
    }
  }

  /** The inline height is the number of innermost functions that start just at the address. */
  lemma HeightExactly(stack: seq<Function>, pc: FileAddr)
    ensures var h := Height(stack, Some(pc));
            && (forall k :: |stack| - h <= k < |stack| ==> stack[k].lowPc == Ok(pc))
            && (h < |stack| ==> stack[|stack| - 1 - h].lowPc != Ok(pc))
    ensures Height(stack, None) == 0
  {
  }
}
