/** Classification of syscall stops as entries and exits, and the catch policy that filters them. */
module SyscallStops {
  import opened Words

  /** What the kernel stops a thread for. `number` is `orig_rax` at the stop. A late stop is the SIGSTOP that the
      thread's `pending_sigstop` flag stands for, a first stop the one with which a new thread begins. */
  datatype Stop = Entry(number: nat) | Exit(number: nat) | CloneEvent | LateStop | FirstStop | OtherStop

  datatype Policy = CatchNone | CatchSome(ids: seq<int>) | CatchAll

  /** A reported syscall stop. */
  datatype Report = Report(entry: bool, id: nat)

  /** `syscall_information::id` is 16 bits wide. */
  function Id(number: nat): nat {
    number % 0x1_0000
  }

  predicate IsSyscall(s: Stop) {
    s.Entry? || s.Exit?
  }

  // ----- The debugger -----

  /** `should_resume_from_syscall`, negated. */
  predicate Caught(policy: Policy, id: nat) {
    policy.CatchSome? ==> id in policy.ids
  }

  /** `handle_signal` returns before the flag is looked at: on these stops, when `waitpid` has returned them to
      the main wait. Collected by a stop-all, a clone event goes on, a SIGSTOP has had its `pending_sigstop` flag
      cleared, and a thread is known. */
  predicate Silent(s: Stop, isMain: bool) {
    isMain && (s.CloneEvent? || s.LateStop? || s.FirstStop?)
  }

  /** The flag after a stop: any other stop that is not a syscall's resets it. */
  function Next(expecting: bool, s: Stop, isMain: bool): bool {
    if Silent(s, isMain) then expecting
    else if IsSyscall(s) then !expecting
    else false
  }

  /** Only a list keeps a syscall from being reported, and only one that its id is not on. */
  lemma CaughtExactly(policy: Policy, number: nat)
    ensures !Caught(policy, Id(number)) <==> policy.CatchSome? && forall i :: 0 <= i < |policy.ids| ==> policy.ids[i] != number % 0x1_0000
  {
  }

  /** Syscall stops turn the flag over, and all others reset it, but for clone events, SIGSTOPs that are still pending and
      first stops that the main wait returns. */
  lemma FlagExactly(expecting: bool, s: Stop, isMain: bool)
    ensures Next(expecting, s, isMain)
         == if s.Entry? || s.Exit? then !expecting
            else if isMain && s in {CloneEvent, LateStop, FirstStop} then expecting else false
  {
  }

  class Tracer {
    var expectingExit: bool

    constructor ()
      ensures !expectingExit
    {
      expectingExit := false;
    }

    /** `handle_signal` and `augment_stop_reason`: what the stop is classified as, if it is a syscall's and is
        not resumed from. Only a main stop is filtered. */
    method Handle(s: Stop, policy: Policy, isMain: bool) returns (r: Option<Report>)
      modifies this
      ensures expectingExit == Next(old(expectingExit), s, isMain)
      ensures r == if IsSyscall(s) && (isMain ==> Caught(policy, Id(s.number))) then Some(Report(!old(expectingExit), Id(s.number))) else None
    {
      if isMain {
        match s {
          case CloneEvent | LateStop | FirstStop => return None;
          case _ =>
        }
      }
      match s {
        case Entry(number) =>
          r := Augment(number);
        case Exit(number) =>
          r := Augment(number);
        case _ =>
          expectingExit := false;
          return None;
      }
      if isMain && !Caught(policy, r.value.id) {
        r := None;
      }
    }

    /** The syscall half of `augment_stop_reason`. */
    method Augment(number: nat) returns (r: Option<Report>)
      modifies this
      ensures expectingExit == !old(expectingExit) && r == Some(Report(!old(expectingExit), Id(number)))
    {
      if expectingExit {
        r := Some(Report(false, Id(number)));
        expectingExit := false;
      } else {
        r := Some(Report(true, Id(number)));
        expectingExit := true;
      }
    }
  }

  // ----- One thread, as the kernel runs it -----

  /** Whether the thread is in a syscall whose exit would be reported to a tracer that asks for it. */
  datatype Phase = InUser | InSyscall

  /** What `step_over_breakpoint` does before a resume: nothing without an enabled site at the pc, or one
      single step whose stop is thrown away. That stop is the step's trap, and then a syscall that the
      thread was in has ended without an exit stop, or the event of a clone inside the step. */
  datatype StepOver = NoSite | Trap | CloneInStep

  function Resumed(p: Phase, over: StepOver): Phase {
    match over
    case NoSite => p
    case Trap => InUser
    case CloneInStep => InSyscall
  }

  /** The stops that the kernel can make, given where the thread is and how it was resumed: with
      `PTRACE_SYSCALL` when anything is caught, with `PTRACE_CONT` when nothing is. Signals are delivered, and
      threads begin, outside syscalls. */
  predicate CanStop(p: Phase, policy: Policy, s: Stop) {
    match s
    case Entry(_) => p == InUser && !policy.CatchNone?
    case Exit(_) => p == InSyscall && !policy.CatchNone?
    case CloneEvent => p == InSyscall || policy.CatchNone?
    case _ => p == InUser || policy.CatchNone?
  }

  function After(s: Stop): Phase {
    if s.Entry? || s.CloneEvent? then InSyscall else InUser
  }

  /** A resume, under a policy and perhaps over a site, the stop that ends it, and whether the main wait or a
      stop-all collects it. */
  datatype Turn = Turn(stop: Stop, policy: Policy, over: StepOver, isMain: bool)

  predicate IsSilent(t: Turn) {
    Silent(t.stop, t.isMain)
  }

  /** A run of one thread. */
  predicate KernelRun(p: Phase, turns: seq<Turn>)
    decreases turns
  {
    turns == [] || (CanStop(Resumed(p, turns[0].over), turns[0].policy, turns[0].stop) && KernelRun(After(turns[0].stop), turns[1..]))
  }

  /** What the debugger reports over a run: the main stops that it does not resume from. */
  function Reports(expecting: bool, turns: seq<Turn>): seq<Report>
    decreases turns
  {
    if turns == [] then []
    else
      (if IsCaught(turns[0]) then [Report(!expecting, Id(turns[0].stop.number))] else [])
      + Reports(Next(expecting, turns[0].stop, turns[0].isMain), turns[1..])
  }

  /** What the kernel meant: the entries and exits of caught syscalls, in order. */
  function Meant(turns: seq<Turn>): seq<Report> {
    if turns == [] then []
    else (if IsCaught(turns[0]) then [Report(turns[0].stop.Entry?, Id(turns[0].stop.number))] else []) + Meant(turns[1..])
  }

  /** A main stop at a caught syscall. */
  predicate IsCaught(t: Turn) {
    t.isMain && IsSyscall(t.stop) && Caught(t.policy, Id(t.stop.number))
  }

  /** Where the thread is when it stops: resumed with `PTRACE_CONT`, it can have entered a clone unseen. */
  function AtStop(p: Phase, t: Turn): Phase {
    if t.stop.CloneEvent? then InSyscall else Resumed(p, t.over)
  }

  /** Before the stop, the thread has left a syscall, or got into one, behind the debugger's back. */
  predicate Crosses(p: Phase, t: Turn) {
    AtStop(p, t) != p
  }

  /** Where the thread is before turn `k`. */
  function PhaseAt(p: Phase, turns: seq<Turn>, k: nat): Phase
    requires k <= |turns|
  {
    if k == 0 then p else After(turns[k - 1].stop)
  }

  /** What a stop leaves of a skew: a syscall stop keeps it, a silent one too unless it finds the thread outside
      the syscall, a clone event collected by a stop-all makes one, and any other stop ends it. */
  predicate Left(skewed: bool, t: Turn, at: Phase) {
    if IsSyscall(t.stop) then skewed
    else if IsSilent(t) then (if at == After(t.stop) then skewed else !skewed)
    else t.stop.CloneEvent?
  }

  /** At stop `k` the flag and the thread do not agree: since they last did, the boundary of a syscall has been
      crossed unseen an odd number of times, or the flag has been reset inside one. */
  predicate Skewed(start: bool, p: Phase, turns: seq<Turn>, k: nat)
    requires k < |turns|
    decreases k
  {
    var before := if k == 0 then start
                  else Left(Skewed(start, p, turns, k - 1), turns[k - 1], AtStop(PhaseAt(p, turns, k - 1), turns[k - 1]));
    before != Crosses(PhaseAt(p, turns, k), turns[k])
  }

  lemma {:induction false} SkewTail(start: bool, p: Phase, turns: seq<Turn>, k: nat)
    requires turns != [] && k + 1 < |turns|
    ensures Skewed(LeftBy(start, p, turns[0]), After(turns[0].stop), turns[1..], k) == Skewed(start, p, turns, k + 1)
    decreases k
  {
    if k > 0 {
      SkewTail(start, p, turns, k - 1);
    }
  }

  /** The skew that the first turn leaves behind. */
  predicate LeftBy(start: bool, p: Phase, t: Turn) {
    Left(start != Crosses(p, t), t, AtStop(p, t))
  }

  predicate Straight(start: bool, p: Phase, turns: seq<Turn>) {
    forall k :: 0 <= k < |turns| && IsCaught(turns[k]) ==> !Skewed(start, p, turns, k)
  }

  lemma StraightTail(start: bool, p: Phase, turns: seq<Turn>)
    requires turns != []
    ensures Straight(start, p, turns)
       <==> (IsCaught(turns[0]) ==> start == Crosses(p, turns[0])) && Straight(LeftBy(start, p, turns[0]), After(turns[0].stop), turns[1..])
  {
    var start', p', rest := LeftBy(start, p, turns[0]), After(turns[0].stop), turns[1..];
    forall k | 0 <= k < |rest|
      ensures Skewed(start', p', rest, k) == Skewed(start, p, turns, k + 1) && rest[k] == turns[k + 1]
    {
      SkewTail(start, p, turns, k);
    }
    if Straight(start, p, turns) {
      assert IsCaught(turns[0]) ==> !Skewed(start, p, turns, 0);
    }
    if Straight(start', p', rest) && (IsCaught(turns[0]) ==> start == Crosses(p, turns[0])) {
      forall k | 0 <= k < |turns| && IsCaught(turns[k])
        ensures !Skewed(start, p, turns, k)
      {
        assert k > 0 ==> IsCaught(rest[k - 1]);
      }
    }
  }

  lemma {:induction false} FlagTellsPhase(start: bool, p: Phase, turns: seq<Turn>, expecting: bool)
    requires KernelRun(p, turns) && expecting == ((p == InSyscall) != start)
    ensures Reports(expecting, turns) == Meant(turns) <==> Straight(start, p, turns)
    decreases turns
  {
    if turns != [] {
      var t, rest := turns[0], turns[1..];
      var expecting' := Next(expecting, t.stop, t.isMain);
      FlagTellsPhase(LeftBy(start, p, t), After(t.stop), rest, expecting');
      StraightTail(start, p, turns);
      if IsCaught(t) {
        var a, b := [Report(!expecting, Id(t.stop.number))] + Reports(expecting', rest), [Report(t.stop.Entry?, Id(t.stop.number))] + Meant(rest);
        assert a[1..] == Reports(expecting', rest) && b[1..] == Meant(rest);
        assert a == b ==> a[0] == b[0];
      } else {
        assert [] + Reports(expecting', rest) == Reports(expecting', rest) && [] + Meant(rest) == Meant(rest);
      }
    }
  }

  /** In every run of one thread, whatever policies it is resumed under, whatever stops are filtered out and
      whichever a stop-all collects, the reported stops are exactly the entries and exits of the caught
      syscalls, if and only if no caught one is skewed. */
  lemma ReportsAreMeantExactly(turns: seq<Turn>)
    requires KernelRun(InUser, turns)
    ensures Reports(false, turns) == Meant(turns) <==> Straight(false, InUser, turns)
  {
    FlagTellsPhase(false, InUser, turns, false);
  }

  /** Nothing disturbs the flag: no step over a site crosses the boundary of a syscall, no stop-all collects a
      clone event, and the policy does not change at a silent stop, which is not reported. */
  predicate Plain(p: Phase, turns: seq<Turn>)
    decreases turns
  {
    turns == []
    || (&& Resumed(p, turns[0].over) == p
        && (turns[0].stop.CloneEvent? ==> turns[0].isMain)
        && (IsSilent(turns[0]) && |turns| > 1 ==> turns[1].policy == turns[0].policy)
        && Plain(After(turns[0].stop), turns[1..]))
  }

  /** Then the reports are as meant: filtered stops, clone events and late SIGSTOPs do no harm. */
  lemma ReportsAreMeant(turns: seq<Turn>)
    requires KernelRun(InUser, turns) && Plain(InUser, turns)
    ensures Reports(false, turns) == Meant(turns)
  {
    PlainIsStraight(false, InUser, turns);
    ReportsAreMeantExactly(turns);
  }

  /** While nothing is caught the flag may be off, until a stop that is reported sets it right. */
  lemma {:induction false} PlainIsStraight(start: bool, p: Phase, turns: seq<Turn>)
    requires KernelRun(p, turns) && Plain(p, turns) && (start && turns != [] ==> turns[0].policy.CatchNone?)
    ensures Straight(start, p, turns)
    decreases turns
  {
    if turns != [] {
      StraightTail(start, p, turns);
      PlainIsStraight(LeftBy(start, p, turns[0]), After(turns[0].stop), turns[1..]);
    }
  }

  function Main(s: Stop): Turn {
    Turn(s, CatchAll, NoSite, true)
  }

  /** The witness: an entry stop at an enabled site. The step over the site ends the syscall, and the next
      entry is reported as an exit. */
  lemma SteppedOverEntry(m: nat, n: nat)
    ensures var turns := [Main(Entry(m)), Main(Entry(n)).(over := Trap)];
            && KernelRun(InUser, turns)
            && Reports(false, turns) == [Report(true, Id(m)), Report(false, Id(n))]
            && Meant(turns) == [Report(true, Id(m)), Report(true, Id(n))]
  {
    var last := [Main(Entry(n)).(over := Trap)];
    var turns := [Main(Entry(m))] + last;
    assert turns[1..] == last && last[1..] == [];
    assert turns == [Main(Entry(m)), Main(Entry(n)).(over := Trap)];
    assert Reports(true, last) == [Report(false, Id(n))] && Meant(last) == [Report(true, Id(n))];
  }

  /** Another: a clone event that a stop-all collects resets the flag inside the syscall, and the exit is
      reported as an entry. */
  lemma CollectedCloneEvent(m: nat)
    ensures var turns := [Main(Entry(m)), Main(CloneEvent).(isMain := false), Main(Exit(m))];
            && KernelRun(InUser, turns)
            && Reports(false, turns) == [Report(true, Id(m)), Report(true, Id(m))]
            && Meant(turns) == [Report(true, Id(m)), Report(false, Id(m))]
  {
    var last := [Main(Exit(m))];
    var rest := [Main(CloneEvent).(isMain := false)] + last;
    var turns := [Main(Entry(m))] + rest;
    assert turns[1..] == rest && rest[1..] == last && last[1..] == [];
    assert turns == [Main(Entry(m)), Main(CloneEvent).(isMain := false), Main(Exit(m))];
    assert KernelRun(InSyscall, last) && KernelRun(InSyscall, rest);
    assert Meant(last) == [Report(false, Id(m))] + Meant([]);
    assert Reports(false, last) == [Report(true, Id(m))];
    assert Reports(true, rest) == [] + Reports(false, last) && Meant(rest) == [] + Meant(last);
  }

  /** A catch list names what the tracee calls exactly when numbers fit in 16 bits: a number with the
      same low bits as a listed one is reported under it. */
  lemma IdIsNumberExactly(number: nat)
    ensures Id(number) == number <==> number < 0x1_0000
  {
  }

  // ----- Several threads -----

  datatype ThreadTurn = ThreadTurn(tid: int, turn: Turn)

  /** The turns of one thread. */
  function Of(run: seq<ThreadTurn>, tid: int): seq<Turn> {
    if run == [] then []
    else (if run[0].tid == tid then [run[0].turn] else []) + Of(run[1..], tid)
  }

  /** The classifications over an interleaving: the one flag serves all threads. */
  function Classified(expecting: bool, run: seq<ThreadTurn>): seq<bool>
    decreases run
  {
    if run == [] then []
    else
      var t := run[0].turn;
      (if IsSyscall(t.stop) then [!expecting] else []) + Classified(Next(expecting, t.stop, t.isMain), run[1..])
  }

  function Truth(run: seq<ThreadTurn>): seq<bool> {
    if run == [] then []
    else (if IsSyscall(run[0].turn.stop) then [run[0].turn.stop.Entry?] else []) + Truth(run[1..])
  }

  /** The last stop of any thread that is not silent: whose it is, whether it is an entry, and where its thread
      is now, which later silent stops and resumes of that thread can have changed. */
  datatype Last = Last(tid: int, entry: bool, phase: Phase)

  /** The last stop, when a thread is about to stop again. */
  function Carried(last: Option<Last>, t: ThreadTurn): Option<Last> {
    if last.Some? && last.value.tid == t.tid then Some(last.value.(phase := AtStop(last.value.phase, t.turn))) else last
  }

  /** The last stop, when the thread has stopped. */
  function Stopped(last: Option<Last>, t: ThreadTurn): Option<Last> {
    if !IsSilent(t.turn) then Some(Last(t.tid, t.turn.stop.Entry?, After(t.turn.stop)))
    else if last.Some? && last.value.tid == t.tid then Some(last.value.(phase := After(t.turn.stop)))
    else last
  }

  /** A syscall stop of a thread fits the last stop that was not silent. If that was the same thread's, the thread
      has not crossed the boundary of a syscall unseen since; if it was another thread's, just one of the two
      is an entry. */
  predicate FitsLast(last: Option<Last>, tid: int, entry: bool) {
    match last
    case None => entry
    case Some(l) => if l.tid == tid then l.entry == (l.phase == InSyscall) else l.entry != entry
  }

  /** Every syscall stop fits. Between stops of one thread this asks nothing of a thread that the debugger sees
      in and out of its syscalls: the kernel sees to it. */
  predicate Orderly(last: Option<Last>, run: seq<ThreadTurn>)
    decreases run
  {
    run == []
    || ((IsSyscall(run[0].turn.stop) ==> FitsLast(Carried(last, run[0]), run[0].tid, run[0].turn.stop.Entry?))
        && Orderly(Stopped(last, run[0]), run[1..]))
  }

  type Phases = map<int, Phase>

  function PhaseOf(phases: Phases, tid: int): Phase {
    if tid in phases then phases[tid] else InUser
  }

  /** An interleaving of runs of threads. */
  ghost predicate Interleaved(phases: Phases, run: seq<ThreadTurn>) {
    forall tid :: KernelRun(PhaseOf(phases, tid), Of(run, tid))
  }

  function AfterHead(phases: Phases, t: ThreadTurn): Phases {
    phases[t.tid := After(t.turn.stop)]
  }

  lemma InterleavedTail(phases: Phases, run: seq<ThreadTurn>)
    requires run != [] && Interleaved(phases, run)
    ensures Interleaved(AfterHead(phases, run[0]), run[1..])
    ensures CanStop(Resumed(PhaseOf(phases, run[0].tid), run[0].turn.over), run[0].turn.policy, run[0].turn.stop)
  {
    var t, rest := run[0], run[1..];
    forall tid
      ensures KernelRun(PhaseOf(AfterHead(phases, t), tid), Of(rest, tid))
    {
      assert KernelRun(PhaseOf(phases, tid), Of(run, tid));
      if tid == t.tid {
        assert Of(run, tid) == [t.turn] + Of(rest, tid);
        assert Of(run, tid)[1..] == Of(rest, tid);
      } else {
        assert Of(run, tid) == [] + Of(rest, tid) == Of(rest, tid);
      }
    }
    assert KernelRun(PhaseOf(phases, t.tid), Of(run, t.tid));
    assert Of(run, t.tid) == [t.turn] + Of(rest, t.tid);
  }

  /** The flag says whether the last stop was an entry, and where its thread is. */
  predicate Tells(expecting: bool, phases: Phases, last: Option<Last>) {
    match last
    case None => !expecting
    case Some(l) => expecting == l.entry && PhaseOf(phases, l.tid) == l.phase
  }

  lemma {:induction false} RightFrom(expecting: bool, phases: Phases, last: Option<Last>, run: seq<ThreadTurn>)
    requires Interleaved(phases, run) && Tells(expecting, phases, last)
    ensures Classified(expecting, run) == Truth(run) <==> Orderly(last, run)
    decreases run
  {
    if run != [] {
      var t, rest := run[0], run[1..];
      InterleavedTail(phases, run);
      var s, phases' := t.turn.stop, AfterHead(phases, t);
      var expecting' := Next(expecting, s, t.turn.isMain);
      if IsSyscall(s) {
        assert FitsLast(Carried(last, t), t.tid, s.Entry?) <==> expecting == !s.Entry?;
        FirstDecides(expecting, run);
        if expecting == !s.Entry? {
          RightFrom(expecting', phases', Stopped(last, t), rest);
        }
      } else {
        DropNothing(expecting, run);
        RightFrom(expecting', phases', Stopped(last, t), rest);
      }
    }
  }

  lemma DropNothing(expecting: bool, run: seq<ThreadTurn>)
    requires run != [] && !IsSyscall(run[0].turn.stop)
    ensures Classified(expecting, run) == Classified(Next(expecting, run[0].turn.stop, run[0].turn.isMain), run[1..])
    ensures Truth(run) == Truth(run[1..])
  {
  }

  lemma FirstDecides(expecting: bool, run: seq<ThreadTurn>)
    requires run != [] && IsSyscall(run[0].turn.stop)
    ensures Classified(expecting, run) == Truth(run)
       <==> expecting == !run[0].turn.stop.Entry? && Classified(!expecting, run[1..]) == Truth(run[1..])
  {
    var a, b := [!expecting] + Classified(!expecting, run[1..]), [run[0].turn.stop.Entry?] + Truth(run[1..]);
    assert a[1..] == Classified(!expecting, run[1..]) && b[1..] == Truth(run[1..]);
    assert a == b ==> a[0] == b[0];
  }

  /** Over any interleaving of threads that start in user code, main stops and stops collected by a stop-all
      alike, all syscall stops are classified right if and only if at each of them the last stop that was not
      silent was the thread's own, with the thread where that stop left it, or another thread's, with just one
      of the two stops an entry. */
  lemma ClassifiedRightExactly(run: seq<ThreadTurn>)
    requires Interleaved(map[], run)
    ensures Classified(false, run) == Truth(run) <==> Orderly(None, run)
  {
    RightFrom(false, map[], None, run);
  }

  /** No thread is stepped over a site, nothing runs uncaught, no stop-all collects a clone event, and after an
      entry the next stop that is not silent is the same thread's. */
  predicate Undisturbed(last: Option<Last>, run: seq<ThreadTurn>)
    decreases run
  {
    run == []
    || var t := run[0];
       && t.turn.over == NoSite && !t.turn.policy.CatchNone? && (t.turn.stop.CloneEvent? ==> t.turn.isMain)
       && (!IsSilent(t.turn) && last.Some? && last.value.entry ==> last.value.tid == t.tid)
       && Undisturbed(Stopped(last, t), run[1..])
  }

  /** It suffices that no thread stops between another's entry and exit and none is disturbed otherwise. */
  lemma {:induction false} UndisturbedIsOrderly(phases: Phases, last: Option<Last>, run: seq<ThreadTurn>)
    requires Interleaved(phases, run) && Undisturbed(last, run)
    requires last.Some? ==> last.value.entry == (last.value.phase == InSyscall)
    requires forall tid :: PhaseOf(phases, tid) == InSyscall <==> last.Some? && last.value.entry && last.value.tid == tid
    ensures Orderly(last, run)
    decreases run
  {
    if run != [] {
      var t := run[0];
      InterleavedTail(phases, run);
      var last', phases' := Stopped(last, t), AfterHead(phases, t);
      assert PhaseOf(phases, t.tid) == InSyscall <==> last.Some? && last.value.entry && last.value.tid == t.tid;
      forall tid
        ensures PhaseOf(phases', tid) == InSyscall <==> last'.Some? && last'.value.entry && last'.value.tid == tid
      {
        assert PhaseOf(phases, tid) == InSyscall <==> last.Some? && last.value.entry && last.value.tid == tid;
        assert tid != t.tid ==> PhaseOf(phases', tid) == PhaseOf(phases, tid);
      }
      UndisturbedIsOrderly(phases', last', run[1..]);
    }
  }

  /** Threads that do not disturb one another are classified right. */
  lemma UndisturbedIsRight(run: seq<ThreadTurn>)
    requires Interleaved(map[], run) && Undisturbed(None, run)
    ensures Classified(false, run) == Truth(run)
  {
    UndisturbedIsOrderly(map[], None, run);
    ClassifiedRightExactly(run);
  }

  /** Two threads that each enter a syscall: the second entry is taken for an exit. */
  lemma TwoEntriesAreConfused(a: int, b: int, m: nat, n: nat)
    requires a != b
    ensures var run := [ThreadTurn(a, Main(Entry(m))), ThreadTurn(b, Main(Entry(n)))];
            Interleaved(map[], run) && Classified(false, run) == [true, false] && Truth(run) == [true, true]
  {
    var last := [ThreadTurn(b, Main(Entry(n)))];
    var run := [ThreadTurn(a, Main(Entry(m)))] + last;
    assert run[1..] == last && last[1..] == [];
    assert run == [ThreadTurn(a, Main(Entry(m))), ThreadTurn(b, Main(Entry(n)))];
    assert Classified(true, last) == [false] + Classified(false, []) && Truth(last) == [true] + Truth([]);
    forall tid
      ensures KernelRun(InUser, Of(run, tid))
    {
      assert Of(last, tid) == if tid == b then [last[0].turn] else [];
      assert Of(run, tid) == if tid == a then [run[0].turn] else Of(last, tid);
    }
  }
}
