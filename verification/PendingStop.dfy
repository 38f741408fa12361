/** The pending-SIGSTOP protocol: stopping all threads, swallowing stops that arrive late, resuming, and
    what the `pending_sigstop` flag of each thread says about the kernel. */
module PendingStop {
  import opened Words

  datatype Phase = Running | Stopped | Dead

  /** A thread: the debugger's flag and state, and in the kernel the undelivered SIGSTOPs that the debugger
      sent, those that came from elsewhere and are not merged with one of the debugger's, and the other stops
      that are due (signals, traps). */
  datatype Thread = Thread(phase: Phase, pending: bool, sent: nat, foreign: nat, others: nat)

  /** What `waitpid` reports for a thread. The debugger cannot tell a foreign SIGSTOP from its own. */
  datatype Event = SigStop | ForeignStop | OtherStop | Exit

  predicate LooksLikeSigstop(e: Event) {
    e == SigStop || e == ForeignStop
  }

  /** The kernel can report this event once the thread runs. */
  predicate Possible(t: Thread, e: Event) {
    match e
    case SigStop => t.sent > 0
    case ForeignStop => t.foreign > 0
    case OtherStop => t.others > 0
    case Exit => true
  }

  function Deliver(t: Thread, e: Event): Thread
    requires Possible(t, e)
  {
    match e
    case SigStop => t.(phase := Stopped, sent := t.sent - 1)
    case ForeignStop => t.(phase := Stopped, foreign := t.foreign - 1)
    case OtherStop => t.(phase := Stopped, others := t.others - 1)
    case Exit => t.(phase := Dead)
  }

  // ----- The debugger's operations on one thread -----

  /** `tgkill(..., SIGSTOP)` unless one is already on its way. */
  function Signalled(t: Thread): Thread {
    if t.pending then t else t.(sent := t.sent + 1)
  }

  /** `stop_running_threads`, for one running thread: a stop that is no SIGSTOP sets the flag, and any SIGSTOP
      leaves it clear. */
  function StopOne(t: Thread, e: Event): Thread
    requires Possible(Signalled(t), e)
  {
    var t' := Deliver(Signalled(t), e);
    if e == Exit then t' else t'.(pending := !LooksLikeSigstop(e))
  }

  /** `swallow_pending_sigstop`: whatever stop comes is taken for the SIGSTOP. */
  function Swallow(t: Thread, e: Event): Thread
    requires t.pending ==> Possible(t, e)
  {
    if t.pending then Deliver(t, e).(pending := false) else t
  }

  /** `wait_on_signal` and `handle_signal` on the thread that `waitpid` returns. A pending SIGSTOP is not
      reported and the thread goes on; `clears` says whether the flag is then cleared, which is what the
      source means and not what it does. `resumed` says whether another stop is not reported either. */
  function MainStop(t: Thread, e: Event, resumed: bool, clears: bool): Thread
    requires Possible(t, e)
  {
    var t' := Deliver(t, e);
    if LooksLikeSigstop(e) && t.pending then t'.(phase := Running, pending := if clears then false else t.pending)
    else if e == OtherStop && resumed then t'.(phase := Running)
    else t'
  }

  /** A SIGCONT for the process discards the SIGSTOPs that its threads have not taken yet, whoever sent them. */
  function Continued(t: Thread): Thread {
    t.(sent := 0, foreign := 0)
  }

  // ----- Runs -----

  type Threads = map<int, Thread>

  datatype Step =
    | StopStep(tid: int, event: Event)
    | SwallowStep(tid: int, event: Event)
    | MainStep(tid: int, event: Event, resumed: bool)
    | ContinueStep(tid: int)
    | RaiseStep(tid: int)
    | ForeignStep(tid: int)
    | SigcontStep
    | CloneStep(tid: int)
    | CleanupStep(tid: int)

  /** The step can happen: the thread is known and in the right state, and the kernel has the event. */
  predicate Enabled(ts: Threads, s: Step) {
    match s
    case CloneStep(tid) => tid !in ts
    case StopStep(tid, e) => tid in ts && ts[tid].phase == Running && Possible(Signalled(ts[tid]), e)
    case SwallowStep(tid, e) => tid in ts && ts[tid].phase == Stopped && (ts[tid].pending ==> Possible(ts[tid], e))
    case MainStep(tid, e, _) => tid in ts && ts[tid].phase == Running && Possible(ts[tid], e)
    case ContinueStep(tid) => tid in ts && ts[tid].phase == Stopped
    case RaiseStep(tid) => tid in ts
    case ForeignStep(tid) => tid in ts
    case SigcontStep => true
    case CleanupStep(tid) => tid in ts && ts[tid].phase == Dead
  }

  function Take(ts: Threads, s: Step, clears: bool): Threads
    requires Enabled(ts, s)
  {
    match s
    case StopStep(tid, e) => ts[tid := StopOne(ts[tid], e)]
    case SwallowStep(tid, e) => ts[tid := Swallow(ts[tid], e)]
    case MainStep(tid, e, resumed) => ts[tid := MainStop(ts[tid], e, resumed, clears)]
    case ContinueStep(tid) => ts[tid := ts[tid].(phase := Running)]
    case RaiseStep(tid) => ts[tid := ts[tid].(others := ts[tid].others + 1)]
    case ForeignStep(tid) => ts[tid := ts[tid].(foreign := ts[tid].foreign + 1)]
    case SigcontStep => map tid | tid in ts :: Continued(ts[tid])
    case CloneStep(tid) => ts[tid := Thread(Running, false, 0, 0, 0)]
    case CleanupStep(tid) => ts - {tid}
  }

  /** While the thread lives: the flag is set exactly when one SIGSTOP of the debugger's is undelivered,
      and there is never more than one. */
  predicate FlagTells(t: Thread) {
    t.phase != Dead ==> t.sent <= 1 && (t.pending <==> t.sent == 1)
  }

  predicate AllTell(ts: Threads) {
    forall tid :: tid in ts ==> FlagTells(ts[tid])
  }

  /** The steps that go wrong: a stop swallowed in place of a pending SIGSTOP; a foreign SIGSTOP collected by a
      stop-all, which has one of its own on the way; a foreign SIGSTOP taken as a main stop for the pending one,
      whose flag is then cleared; a SIGCONT while a SIGSTOP of the debugger's is undelivered; and, as the source
      stands, the pending SIGSTOP itself as a main stop, which leaves the flag set. */
  predicate Bad(ts: Threads, s: Step, clears: bool) {
    match s
    case StopStep(tid, e) => e == ForeignStop
    case SwallowStep(tid, e) => tid in ts && ts[tid].pending && (e == OtherStop || e == ForeignStop)
    case MainStep(tid, e, _) => tid in ts && ts[tid].pending && e == (if clears then ForeignStop else SigStop)
    case SigcontStep => exists tid :: tid in ts && ts[tid].phase != Dead && ts[tid].sent > 0
    case _ => false
  }

  lemma SigcontExactly(ts: Threads)
    requires AllTell(ts)
    ensures AllTell(map tid | tid in ts :: Continued(ts[tid])) <==> forall tid :: tid in ts && ts[tid].phase != Dead ==> ts[tid].sent == 0
  {
    var ts' := map tid | tid in ts :: Continued(ts[tid]);
    forall tid | tid in ts
      ensures FlagTells(ts'[tid]) <==> ts[tid].phase != Dead ==> ts[tid].sent == 0
    {
      assert FlagTells(ts[tid]);
    }
  }

  /** Exactly the bad steps break the flags. */
  lemma StepExactly(ts: Threads, s: Step, clears: bool)
    requires AllTell(ts) && Enabled(ts, s)
    ensures AllTell(Take(ts, s, clears)) <==> !Bad(ts, s, clears)
  {
    var ts' := Take(ts, s, clears);
    if s.SigcontStep? {
      SigcontExactly(ts);
    } else if Bad(ts, s, clears) {
      assert !FlagTells(ts'[s.tid]);
    } else {
      forall tid | tid in ts'
        ensures FlagTells(ts'[tid])
      {
        if tid != s.tid {
          assert ts'[tid] == ts[tid];
        }
      }
    }
  }

  /** A run: each state follows from the one before by an enabled step. */
  predicate IsRun(states: seq<Threads>, steps: seq<Step>, clears: bool) {
    && |states| == |steps| + 1
    && forall k :: 0 <= k < |steps| ==> Enabled(states[k], steps[k]) && states[k + 1] == Take(states[k], steps[k], clears)
  }

  /** In every interleaving the flags are right in all states if and only if no bad step is taken. */
  lemma {:induction false} EveryRunExactly(states: seq<Threads>, steps: seq<Step>, clears: bool)
    requires IsRun(states, steps, clears) && AllTell(states[0])
    ensures (forall k :: 0 <= k <= |steps| ==> AllTell(states[k]))
            <==> (forall k :: 0 <= k < |steps| ==> !Bad(states[k], steps[k], clears))
  {
    if forall k :: 0 <= k <= |steps| ==> AllTell(states[k]) {
      forall k | 0 <= k < |steps|
        ensures !Bad(states[k], steps[k], clears)
      {
        assert AllTell(states[k]) && AllTell(states[k + 1]);
        StepExactly(states[k], steps[k], clears);
      }
    }
    if forall k :: 0 <= k < |steps| ==> !Bad(states[k], steps[k], clears) {
      forall k | 0 <= k <= |steps|
        ensures AllTell(states[k])
      {
        NoBadStepKeeps(states, steps, clears, k);
      }
    }
  }

  lemma {:induction false} NoBadStepKeeps(states: seq<Threads>, steps: seq<Step>, clears: bool, k: nat)
    requires IsRun(states, steps, clears) && AllTell(states[0]) && k <= |steps|
    requires forall j :: 0 <= j < k ==> !Bad(states[j], steps[j], clears)
    ensures AllTell(states[k])
  {
    if k > 0 {
      NoBadStepKeeps(states, steps, clears, k - 1);
      StepExactly(states[k - 1], steps[k - 1], clears);
    }
  }

  /** Swallowing is safe whatever the kernel reports exactly when no other stop and no foreign SIGSTOP is due. */
  lemma SwallowExactly(t: Thread)
    requires FlagTells(t) && t.pending && t.phase == Stopped
    ensures (forall e :: Possible(t, e) ==> FlagTells(Swallow(t, e))) <==> t.others == 0 == t.foreign
  {
    if t.others > 0 {
      assert Possible(t, OtherStop) && !FlagTells(Swallow(t, OtherStop));
    }
    if t.foreign > 0 {
      assert Possible(t, ForeignStop) && !FlagTells(Swallow(t, ForeignStop));
    }
  }

  /** A stop-all is safe for a running thread whatever the kernel reports exactly when no foreign SIGSTOP is due. */
  lemma StopExactly(t: Thread)
    requires FlagTells(t) && t.phase == Running
    ensures (forall e :: Possible(Signalled(t), e) ==> FlagTells(StopOne(t, e))) <==> t.foreign == 0
  {
    if t.foreign > 0 {
      assert Possible(Signalled(t), ForeignStop) && !FlagTells(StopOne(t, ForeignStop));
    }
  }

  /** The witness: a thread in the stop of its own SIGSTOP when a stop-all sends another. The flag is clear
      while that one is undelivered. */
  lemma ForeignStopIsTaken()
    ensures var t := Thread(Running, false, 0, 1, 0);
            && FlagTells(t) && Possible(Signalled(t), ForeignStop)
            && StopOne(t, ForeignStop) == Thread(Stopped, false, 1, 0, 0) && !FlagTells(StopOne(t, ForeignStop))
  {
  }

  /** The witness: a stop-all whose SIGSTOP a SIGCONT has discarded leaves a flag that stands for nothing, and the
      next stop-all waits without sending another. */
  lemma DiscardedStopIsAwaited()
    ensures var t := Thread(Stopped, true, 1, 0, 0);
            && FlagTells(t) && !FlagTells(Continued(t))
            && forall e :: Possible(Signalled(Continued(t).(phase := Running)), e) ==> e == Exit
  {
  }

  /** Where an operation leaves a thread that does not exit: stopped by a stop-all and by a swallowed stop; and running
      again after a main stop that is not reported. */
  lemma WhereItStands(t: Thread, e: Event, resumed: bool, clears: bool)
    requires t.phase != Dead && e != Exit
    ensures Possible(Signalled(t), e) ==> StopOne(t, e).phase == Stopped
    ensures t.pending && Possible(t, e) ==> Swallow(t, e).phase == Stopped
    ensures !t.pending ==> Swallow(t, e) == t
    ensures Possible(t, e) ==>
              MainStop(t, e, resumed, clears).phase
              == if (t.pending && e in {SigStop, ForeignStop}) || (resumed && e == OtherStop) then Running else Stopped
  {
  }

  /** With the flag left set, the next stop-all sends nothing and waits for a thread that, with no
      other stop due, can only exit. */
  lemma StuckWithoutTheClear(t: Thread)
    requires FlagTells(t) && t.phase == Running && t.pending && t.others == 0 == t.foreign
    ensures var late := MainStop(t, SigStop, true, false);
            && late.phase == Running && Signalled(late) == late
            && forall e :: Possible(Signalled(late), e) ==> e == Exit
  {
  }

  // ----- The loop over all threads -----

  class ThreadTable {
    var threads: Threads

    constructor (threads: Threads)
      ensures this.threads == threads
    {
      this.threads := threads;
    }

    /** `stop_running_threads`, in any order; `events` is what `waitpid` reports for each thread. */
    method StopRunningThreads(events: map<int, Event>)
      requires forall tid :: tid in threads && threads[tid].phase == Running ==>
                 tid in events && Possible(Signalled(threads[tid]), events[tid])
      modifies this
      ensures threads.Keys == old(threads).Keys
      ensures forall tid :: tid in threads ==>
                threads[tid] == if old(threads)[tid].phase == Running then StopOne(old(threads)[tid], events[tid]) else old(threads)[tid]
      ensures forall tid :: tid in threads ==> threads[tid].phase != Running
      ensures old(AllTell(threads)) ==>
                (AllTell(threads) <==> forall tid :: tid in threads && old(threads)[tid].phase == Running ==> events[tid] != ForeignStop)
    {
      var todo := threads.Keys;
      while todo != {}
        invariant todo <= threads.Keys == old(threads).Keys
        invariant forall tid :: tid in todo ==> threads[tid] == old(threads)[tid]
        invariant forall tid :: tid in threads && tid !in todo ==>
                    threads[tid] == if old(threads)[tid].phase == Running then StopOne(old(threads)[tid], events[tid]) else old(threads)[tid]
        decreases todo
      {
        var tid := Pick(todo);
        if threads[tid].phase == Running {
          StopThread(tid, events[tid]);
        }
        todo := todo - {tid};
      }
      if old(AllTell(threads)) {
        forall tid | tid in threads
          ensures FlagTells(threads[tid]) <==> old(threads)[tid].phase != Running || events[tid] != ForeignStop
        {
          assert old(FlagTells(threads[tid]));
        }
      }
    }

    method StopThread(tid: int, e: Event)
      requires tid in threads && threads[tid].phase == Running && Possible(Signalled(threads[tid]), e)
      modifies this
      ensures threads == old(threads)[tid := StopOne(old(threads)[tid], e)]
    {
      var t := threads[tid];
      if !t.pending {
        t := t.(sent := t.sent + 1);
      }
      t := Deliver(t, e);
      if t.phase == Stopped {
        if !LooksLikeSigstop(e) {
          t := t.(pending := true);
        } else if t.pending {
          t := t.(pending := false);
        }
      }
      threads := threads[tid := t];
    }

    method SwallowPendingSigstop(tid: int, e: Event)
      requires Enabled(threads, SwallowStep(tid, e))
      modifies this
      ensures threads == Take(old(threads), SwallowStep(tid, e), true)
    {
      var t := threads[tid];
      if t.pending {
        t := Deliver(t, e);
        t := t.(pending := false);
      }
      threads := threads[tid := t];
    }
  }
}
