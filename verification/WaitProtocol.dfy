// Sleeping and waking (system/kern/kern_wait.c) against the scheduler
// (system/kern/kern_sched.c), in every interleaving.
//
// waitqueue_wait is four steps of the waiting thread: enter the queue, set
// THREAD_SF_QUEUE_WAIT, induce a preemption, clear the flag.  Waking is three steps
// of any other agent: take the thread off its queue, read its t_current_cpu, and
// the locked section of sched_actualize.  sched_insert and sched_remove are two
// steps each, since t_current_cpu is set before and cleared after their locked
// sections.  Timer preemptions come in anywhere.
module WaitProtocol {
  import opened Basics
  import opened SchedQueue
  import opened SchedOps

  datatype Pc =
    | Away       // outside waitqueue_wait, or reacquiring the lock at its end
    | Entered    // on the queue
    | Flagged    // ... and THREAD_SF_QUEUE_WAIT is set
    | Yielded    // ... and the induced preemption has been issued

  datatype Kernel = Kernel(
    s: Sched,
    pc: map<Tid, Pc>,
    pending: multiset<Tid>,   // dequeued, t_current_cpu not yet read
    inHand: multiset<Tid>,    // read as this CPU, locked section outstanding
    leaving: set<Tid>,        // popped by sched_remove, owner not yet cleared
    arriving: set<Tid>)       // owner set by sched_insert, not yet enqueued

  datatype Step =
    | Enter(t: Tid)
    | Flag(t: Tid)
    | Yield(t: Tid)
    | Clear(t: Tid)
    | Dequeue(t: Tid)
    | ReadCpu(t: Tid)
    | Wake(t: Tid)
    | Timer
    | SetOwner(t: Tid)
    | Insert(t: Tid)
    | Remove
    | ClearOwner(t: Tid)
    | Adjust(t: Tid, lockSched: bool, nonpreempt: nat, priority: nat)

  ghost predicate Typed(k: Kernel) {
    Known(k.s) && k.pc.Keys == k.s.threads.Keys
  }

  // Steps of a thread's own code need the thread to be running; the idle thread
  // never waits; a thread inside waitqueue_wait does nothing else; only a thread
  // that no scheduler has is given to sched_insert.
  ghost predicate Enabled(k: Kernel, step: Step)
    requires Typed(k)
  {
    match step
    case Enter(t) => t == k.s.current && t != k.s.idle && k.pc[t] == Away && !k.s.threads[t].lockSched
    case Flag(t) => t == k.s.current && k.pc[t] == Entered
    case Yield(t) => t == k.s.current && k.pc[t] == Flagged
    case Clear(t) => t == k.s.current && k.pc[t] == Yielded
    case Dequeue(t) => t in k.pc && k.s.threads[t].onQueue
    case ReadCpu(t) => t in k.pending && t in k.pc
    case Wake(t) => t in k.inHand && t in k.pc
    case Timer => true
    case SetOwner(t) => t in k.pc && t != k.s.idle && t !in Members(k.s) && t !in k.leaving && t !in k.arriving
    case Insert(t) => t in k.arriving && t in k.pc
    case Remove => true
    case ClearOwner(t) => t in k.leaving && t in k.pc
    case Adjust(t, _, _, _) => t in k.pc && k.pc[t] == Away
  }

  ghost function Set(s: Sched, t: Tid, th: Thread): (s': Sched)
    requires Known(s) && t in s.threads
    ensures Known(s') && s'.threads.Keys == s.threads.Keys
  {
    s.(threads := s.threads[t := th])
  }

  ghost function Next(k: Kernel, step: Step): (k': Kernel)
    requires Typed(k) && Enabled(k, step)
    ensures Typed(k')
  {
    match step
    case Enter(t) => k.(s := Set(k.s, t, k.s.threads[t].(onQueue := true)), pc := k.pc[t := Entered])
    case Flag(t) => k.(s := Set(k.s, t, k.s.threads[t].(queueWait := true)), pc := k.pc[t := Flagged])
    case Yield(t) => k.(s := Preempt(k.s), pc := k.pc[t := Yielded])
    case Clear(t) => k.(s := Set(k.s, t, k.s.threads[t].(queueWait := false)), pc := k.pc[t := Away])
    case Dequeue(t) =>
      k.(s := Set(k.s, t, k.s.threads[t].(onQueue := false)), pending := k.pending + multiset{t})
    case ReadCpu(t) =>
      k.(pending := k.pending - multiset{t},
         inHand := if k.s.threads[t].owned then k.inHand + multiset{t} else k.inHand)
    case Wake(t) => k.(s := Actualize(k.s, t), inHand := k.inHand - multiset{t})
    case Timer => k.(s := Preempt(k.s))
    case SetOwner(t) => k.(s := Set(k.s, t, k.s.threads[t].(owned := true)), arriving := k.arriving + {t})
    case Insert(t) => k.(s := SchedOps.Insert(k.s, t), arriving := k.arriving - {t})
    case Remove =>
      var (s', next) := SchedOps.Remove(k.s);
      k.(s := s', leaving := match next case None => k.leaving case Some(t) => k.leaving + {t})
    case ClearOwner(t) => k.(s := Set(k.s, t, k.s.threads[t].(owned := false)), leaving := k.leaving - {t})
    case Adjust(t, l, n, p) => k.(s := Set(k.s, t, k.s.threads[t].(lockSched := l, nonpreempt := n, priority := p)))
  }

  /////////////// What holds in every interleaving ///////////////

  // What holds of one thread, wherever it is.
  ghost predicate ThreadOk(k: Kernel, t: Tid)
    requires Typed(k) && t in k.pc
  {
    var th := k.s.threads[t];
    && (th.queueWait <==> k.pc[t] == Flagged || k.pc[t] == Yielded)
    && (k.pc[t] != Away ==> t != k.s.idle && !th.lockSched)
    && (th.queueWait && t != k.s.current ==> th.preempted)
    && (k.pc[t] == Yielded && t == k.s.current && th.onQueue ==> th.nonpreempt > 0)
  }

  ghost predicate ThreadsOk(k: Kernel) {
    Typed(k) && forall t | t in k.pc :: ThreadOk(k, t)
  }

  // The scheduler as the kernel sets it up, and nobody waits yet.
  ghost predicate Initially(k: Kernel) {
    && k.s.idle in k.s.threads && !k.s.threads[k.s.idle].preempted
    && k.s == Fresh(k.s.idle, k.s.threads)
    && k.pc.Keys == k.s.threads.Keys
    && k.pending == multiset{} && k.inHand == multiset{} && k.leaving == {} && k.arriving == {}
    && forall t | t in k.pc :: k.pc[t] == Away && !k.s.threads[t].queueWait && !k.s.threads[t].onQueue
  }

  // How a preemption changes the flags of threads.
  lemma PreemptFlags(s: Sched, u: Tid)
    requires Known(s) && u in s.threads
    ensures var s' := Preempt(s);
      && s'.idle == s.idle
      && s'.threads[u] == s.threads[u].(preempted := s'.threads[u].preempted, owned := s'.threads[u].owned)
      && (s.threads[u].owned ==> s'.threads[u].owned)
      && (s'.current == s.current ==> s'.threads[u].preempted == s.threads[u].preempted)
      && (s'.current != s.current && u != s'.current ==>
            s'.threads[u].preempted == (u == s.current || s.threads[u].preempted))
      && (s'.current == u && u != s.current ==> u == s.idle || !Suspended(s, u))
      && (s'.current == s.current == u ==>
            u == s.idle || s.threads[u].lockSched || s.threads[u].nonpreempt > 0 || !Suspended(s, u))
  {
    hide ScheduleNext;
    hide Reenqueue;
  }

  lemma {:induction false} PreemptKeepsThreads(k: Kernel, step: Step)
    requires ThreadsOk(k) && Enabled(k, step) && (step.Timer? || step.Yield?)
    ensures ThreadsOk(Next(k, step))
  {
    hide Preempt;
    hide Known;
    var k' := Next(k, step);
    forall t | t in k'.pc ensures ThreadOk(k', t) {
      assert ThreadOk(k, t);
      PreemptFlags(k.s, t);
    }
  }

  // Changing one thread, or none, while nobody is switched to.
  lemma {:induction false} OthersKeepThreads(k: Kernel, k': Kernel, t: Tid)
    requires ThreadsOk(k) && Typed(k') && k'.s.current == k.s.current && k'.s.idle == k.s.idle
    requires k'.pc.Keys == k.pc.Keys && (t in k'.pc ==> ThreadOk(k', t))
    requires forall u | u in k.pc && u != t :: k'.pc[u] == k.pc[u] && k'.s.threads[u] == k.s.threads[u]
    ensures ThreadsOk(k')
  {
    hide Known;
    forall u | u in k'.pc ensures ThreadOk(k', u) {
      assert ThreadOk(k, u);
    }
  }

  lemma {:induction false} StepKeepsThreads(k: Kernel, step: Step)
    requires ThreadsOk(k) && Enabled(k, step)
    ensures ThreadsOk(Next(k, step))
  {
    assert k.s.current in k.pc;
    hide Preempt;
    hide Actualize;
    hide SchedOps.Insert;
    hide SchedOps.Remove;
    hide Known;
    hide Members;
    if step.Timer? || step.Yield? {
      PreemptKeepsThreads(k, step);
    } else if step.Remove? {
      assert ThreadOk(k, k.s.current);
      OthersKeepThreads(k, Next(k, step), k.s.current);
    } else {
      assert ThreadOk(k, step.t);
      OthersKeepThreads(k, Next(k, step), step.t);
    }
  }

  /////////////// Who has a thread in hand ///////////////

  // Nobody is waking `t`, and nobody can start to.
  ghost predicate Free(k: Kernel, t: Tid)
    requires t in k.s.threads
  {
    !k.s.threads[t].onQueue && t !in k.pending && t !in k.inHand
  }

  // A removal that does not take away a preempted thread while somebody is waking
  // it or can start to: a condition on the state before the call.
  ghost predicate Safe(k: Kernel, step: Step)
    requires Typed(k)
  {
    step.Remove? ==>
      match SchedOps.Remove(k.s).1
      case None => true
      case Some(t) => !k.s.threads[t].preempted || Free(k, t)
  }

  // The scheduler's own threads are owned by its CPU, and nobody wakes a preempted
  // thread it does not have.
  ghost predicate PlaceOk(k: Kernel, t: Tid)
    requires Typed(k) && t in k.pc
  {
    && (t in Members(k.s) ==> k.s.threads[t].owned && t !in k.leaving && t !in k.arriving)
    && (t in k.arriving ==> k.s.threads[t].owned && t != k.s.idle && t !in k.leaving)
    && (t !in Members(k.s) && t != k.s.idle && k.s.threads[t].preempted ==> Free(k, t))
  }

  // A blocked thread has announced its wait, and it is still on its wait queue or
  // somebody is about to actualize it.
  ghost predicate BlockedOk(k: Kernel, t: Tid)
    requires Typed(k) && t in k.pc
  {
    k.s.threads[t].queueWait && !Free(k, t)
  }

  ghost predicate Inv(k: Kernel) {
    && ThreadsOk(k)
    && Conserved(k.s)
    && (forall t | t in k.pc :: PlaceOk(k, t))
    && (forall t | t in k.s.blocked :: BlockedOk(k, t))
  }

  // Only suspended threads of the run rings are put aside by sched_schedule_next.
  lemma {:induction false} NextBlocks(s: Sched, u: Tid)
    requires Known(s) && u in s.threads
    requires u in ScheduleNext(s).0.blocked
    ensures u in s.blocked || (Suspended(s, u) && Queued(s.q.rings, u) > 0)
    decreases RingSizes(s.q.rings)
  {
    var (s1, popped) := PassStep(s);
    PassPlaces(s, u);
    if popped.Some? && Suspended(s1, popped.value) {
      NextBlocks(s1.(blocked := s1.blocked + [popped.value]), u);
    }
  }

  lemma NotTwice(s: Sched, u: Tid)
    requires Conserved(s)
    ensures u in s.blocked || Queued(s.q.rings, u) > 0 ==> u != s.current && u != s.idle && u in Members(s)
    ensures s.current != s.idle ==> s.current in Members(s)
  {
    assert Places(s, u) == if u in Members(s) then 1 else 0;
    assert Places(s, s.current) == if s.current in Members(s) then 1 else 0;
  }

  lemma PreemptBlocks(s: Sched, u: Tid)
    requires Known(s) && u in Preempt(s).blocked && u in s.threads
    ensures u in s.blocked || Suspended(s, u)
  {
    var s1 := ScheduleNext(s).0;
    if u in s1.blocked {
      NextBlocks(s, u);
    }
  }

  lemma {:induction false} PreemptKeepsInv(k: Kernel, k': Kernel)
    requires Inv(k) && k'.s == Preempt(k.s) && ThreadsOk(k')
    requires k' == k.(s := k'.s, pc := k'.pc)
    ensures Inv(k')
  {
    hide Preempt;
    PreemptConserves(k.s);
    NotTwice(k.s, k.s.current);
    hide Conserved;
    hide Members;
    forall t | t in k'.pc ensures PlaceOk(k', t) {
      PreemptFlags(k.s, t);
      assert PlaceOk(k, t);
    }
    forall t | t in k'.s.blocked ensures BlockedOk(k', t) {
      PreemptFlags(k.s, t);
      PreemptBlocks(k.s, t);
      if t in k.s.blocked {
        assert BlockedOk(k, t);
      }
    }
  }

  // Only one thread's state changes, and who has it in hand.
  lemma {:induction false} OneThread(k: Kernel, k': Kernel, t: Tid)
    requires Inv(k) && t in k.pc && ThreadsOk(k') && k'.pc.Keys == k.pc.Keys
    requires k'.s == Set(k.s, t, k'.s.threads[t]) && k'.s.threads[t].preempted == k.s.threads[t].preempted
    requires forall u | u != t ::
               && (u in k'.pending <==> u in k.pending) && (u in k'.inHand <==> u in k.inHand)
               && (u in k'.leaving <==> u in k.leaving) && (u in k'.arriving <==> u in k.arriving)
    requires Conserved(k'.s) && Members(k'.s) == Members(k.s) ==>
               PlaceOk(k', t) && (t in k.s.blocked ==> BlockedOk(k', t))
    ensures Inv(k')
  {
    SetConserves(k.s, t, k'.s.threads[t]);
    hide Conserved;
    hide Members;
    forall u | u in k'.pc ensures PlaceOk(k', u) {
      assert PlaceOk(k, u);
    }
    forall u | u in k'.s.blocked ensures BlockedOk(k', u) {
      assert BlockedOk(k, u);
    }
  }

  // Changing the wait state or the owner of one thread.
  lemma {:induction false} SetKeepsInv(k: Kernel, step: Step)
    requires Inv(k) && Enabled(k, step) && ThreadsOk(Next(k, step))
    requires !step.Yield? && !step.Wake? && !step.Timer? && !step.Insert? && !step.Remove?
    ensures Inv(Next(k, step))
  {
    hide Conserved;
    hide Members;
    hide Known;
    var k', t := Next(k, step), step.t;
    NotTwice(k.s, t);
    assert PlaceOk(k, t);
    assert t in k.s.blocked ==> BlockedOk(k, t);
    if step.ReadCpu? {
      assert k'.s == Set(k.s, t, k.s.threads[t]);
    }
    OneThread(k, k', t);
  }

  lemma {:induction false} ActualizeBlocks(s: Sched, t: Tid, u: Tid)
    requires Known(s) && t in s.threads && u in Actualize(s, t).blocked
    ensures u in s.blocked || (u == t && Suspended(s, t))
  {
    if s.threads[t].preempted && u in Unlink(s, t).blocked {
      WithoutIn(s.blocked, t, u);
    }
  }

  lemma {:induction false} ActualizeUnblocks(s: Sched, t: Tid)
    requires Conserved(s) && t in s.threads && s.threads[t].preempted && !Suspended(s, t)
    ensures t !in Actualize(s, t).blocked
  {
    UnlinkPlaces(s, t, t);
    assert t !in multiset(Unlink(s, t).blocked);
  }

  lemma KnownBlocked(s: Sched, u: Tid)
    requires Known(s) && u in s.blocked
    ensures u in s.threads
  {
  }

  lemma {:induction false} WakeKeepsInv(k: Kernel, t: Tid)
    requires Inv(k) && Enabled(k, Wake(t)) && ThreadsOk(Next(k, Wake(t)))
    ensures Inv(Next(k, Wake(t)))
    ensures !k.s.threads[t].onQueue ==> t !in Next(k, Wake(t)).s.blocked
  {
    hide Conserved;
    hide Members;
    hide Known;
    hide Actualize;
    var k' := Next(k, Wake(t));
    assert PlaceOk(k, t) && ThreadOk(k, t);
    ActualizeConservesIff(k.s, t);
    NotTwice(k.s, t);
    if k.s.threads[t].preempted && !Suspended(k.s, t) {
      ActualizeUnblocks(k.s, t);
    }
    forall u | u in k'.pc ensures PlaceOk(k', u) {
      assert PlaceOk(k, u);
    }
    forall u | u in k'.s.blocked ensures u in k'.pc && BlockedOk(k', u) && (u == t ==> k.s.threads[t].onQueue) {
      KnownBlocked(k'.s, u);
      ActualizeBlocks(k.s, t, u);
      if u in k.s.blocked {
        assert BlockedOk(k, u);
      }
    }
  }

  lemma {:induction false} InsertKeepsInv(k: Kernel, t: Tid)
    requires Inv(k) && Enabled(k, Insert(t)) && ThreadsOk(Next(k, Insert(t)))
    ensures Inv(Next(k, Insert(t)))
  {
    hide Conserved;
    hide Members;
    hide Known;
    var k' := Next(k, Insert(t));
    assert PlaceOk(k, t) && ThreadOk(k, t);
    NotTwice(k.s, t);
    InsertConservesIff(k.s, t);
    assert !Suspended(k.s, t) && k'.s.blocked == k.s.blocked;
    hide SchedOps.Insert;
    forall u | u in k'.pc ensures PlaceOk(k', u) {
      assert PlaceOk(k, u);
    }
    forall u | u in k'.s.blocked ensures u in k'.pc && BlockedOk(k', u) {
      KnownBlocked(k'.s, u);
      assert BlockedOk(k, u);
    }
  }

  lemma {:induction false} RemoveKeepsInv(k: Kernel)
    requires Inv(k) && Safe(k, Remove) && ThreadsOk(Next(k, Remove))
    ensures Inv(Next(k, Remove))
  {
    hide ScheduleNext;
    hide Conserved;
    hide Members;
    hide Known;
    var k' := Next(k, Remove);
    RemoveConserves(k.s);
    assert k'.s.blocked == ScheduleNext(k.s).0.blocked;
    hide SchedOps.Remove;
    forall u | u in k'.pc ensures PlaceOk(k', u) {
      assert PlaceOk(k, u);
    }
    forall u | u in k'.s.blocked ensures u in k'.pc && BlockedOk(k', u) {
      KnownBlocked(k'.s, u);
      NextBlocks(k.s, u);
      if u in k.s.blocked {
        assert BlockedOk(k, u);
      }
    }
  }

  // Every safe step keeps conservation and the rest.
  lemma {:induction false} StepKeepsInv(k: Kernel, step: Step)
    requires Inv(k) && Enabled(k, step) && Safe(k, step)
    ensures Inv(Next(k, step))
  {
    StepKeepsThreads(k, step);
    hide Conserved;
    hide Preempt;
    hide Members;
    match step {
      case Yield(_) => PreemptKeepsInv(k, Next(k, step));
      case Timer => PreemptKeepsInv(k, Next(k, step));
      case Wake(t) => WakeKeepsInv(k, t);
      case Insert(t) => InsertKeepsInv(k, t);
      case Remove => RemoveKeepsInv(k);
      case _ => SetKeepsInv(k, step);
    }
  }

  /////////////// Whole runs ///////////////

  ghost predicate IsRun(ks: seq<Kernel>, steps: seq<Step>) {
    && |ks| == |steps| + 1
    && (forall i | 0 <= i < |steps| :: Typed(ks[i]) && Enabled(ks[i], steps[i]) && ks[i + 1] == Next(ks[i], steps[i]))
  }

  // The first `n` steps are safe.
  ghost predicate SafeUntil(ks: seq<Kernel>, steps: seq<Step>, n: nat)
    requires IsRun(ks, steps) && n <= |steps|
  {
    forall i | 0 <= i < n :: Safe(ks[i], steps[i])
  }

  lemma {:induction false} InitiallyInv(k: Kernel)
    requires Initially(k)
    ensures Inv(k)
  {
    FreshConserved(k.s.idle, k.s.threads);
  }

  lemma {:induction false} InvOverRuns(ks: seq<Kernel>, steps: seq<Step>, i: nat)
    requires IsRun(ks, steps) && Initially(ks[0]) && i < |ks| && SafeUntil(ks, steps, i)
    ensures Inv(ks[i])
  {
    hide Next;
    hide Enabled;
    hide Safe;
    hide Inv;
    if i > 0 {
      InvOverRuns(ks, steps, i - 1);
      assert Safe(ks[i - 1], steps[i - 1]);
      StepKeepsInv(ks[i - 1], steps[i - 1]);
    } else {
      InitiallyInv(ks[0]);
    }
  }

  lemma {:induction false} ThreadsOkOverRuns(ks: seq<Kernel>, steps: seq<Step>, i: nat)
    requires IsRun(ks, steps) && Initially(ks[0]) && i < |ks|
    ensures ThreadsOk(ks[i])
  {
    hide Next;
    hide Enabled;
    if i > 0 {
      ThreadsOkOverRuns(ks, steps, i - 1);
      StepKeepsThreads(ks[i - 1], steps[i - 1]);
    }
  }

  // A thread that is off its queue and that nobody wakes is not in the blocked
  // ring: if the scheduler has it, it runs, or it is in a run ring.
  lemma AwakeIsRunnable(k: Kernel, t: Tid)
    requires Inv(k) && t in k.pc && Free(k, t)
    ensures t !in k.s.blocked
    ensures t in Members(k.s) ==> t == k.s.current || InSomeRing(k.s, t)
  {
    assert t in k.s.blocked ==> BlockedOk(k, t);
    ExactlyOnePlace(k.s, t);
  }

  // `t` is off its wait queue and out of the blocked ring.
  ghost predicate Off(k: Kernel, t: Tid) {
    t in k.s.threads && !k.s.threads[t].onQueue && t !in k.s.blocked
  }

  // Without a new wait of its own, a thread stays so, whatever anybody does.
  lemma {:induction false} StaysOff(k: Kernel, step: Step, t: Tid)
    requires Typed(k) && Enabled(k, step) && step != Enter(t) && Off(k, t)
    ensures Off(Next(k, step), t)
  {
    var k' := Next(k, step);
    if step.Timer? || step.Yield? {
      PreemptFlags(k.s, t);
    }
    if t in k'.s.blocked {
      match step {
        case Timer => PreemptBlocks(k.s, t);
        case Yield(_) => PreemptBlocks(k.s, t);
        case Wake(u) => ActualizeBlocks(k.s, u, t);
        case Remove => NextBlocks(k.s, t);
        case _ =>
      }
    }
  }

  lemma {:induction false} StaysOffOverRuns(ks: seq<Kernel>, steps: seq<Step>, t: Tid, i: nat, j: nat)
    requires IsRun(ks, steps) && i <= j < |ks| && Off(ks[i], t)
    requires forall m | i <= m < j :: steps[m] != Enter(t)
    ensures Off(ks[j], t)
    decreases j
  {
    hide Next;
    hide Enabled;
    if i < j {
      StaysOffOverRuns(ks, steps, t, i, j - 1);
      StaysOff(ks[j - 1], steps[j - 1], t);
    }
  }

  // No lost wake-up through the blocked ring: once sched_actualize has finished for
  // a dequeued thread, the thread is out of the blocked ring and, until it waits
  // again, stays out of it in every later state of every run.
  lemma {:induction false} WokenStaysOut(ks: seq<Kernel>, steps: seq<Step>, t: Tid, i: nat, j: nat)
    requires IsRun(ks, steps) && Initially(ks[0])
    requires i < j < |ks| && steps[i] == Wake(t) && SafeUntil(ks, steps, i)
    requires !ks[i].s.threads[t].onQueue
    requires forall m | i < m < j :: steps[m] != Enter(t)
    ensures t !in ks[j].s.blocked
    ensures t in Members(ks[j].s) ==> t == ks[j].s.current || InSomeRing(ks[j].s, t)
  {
    InvOverRuns(ks, steps, i);
    StepKeepsThreads(ks[i], steps[i]);
    WakeKeepsInv(ks[i], t);
    hide Next;
    hide Enabled;
    hide Inv;
    assert Off(ks[i + 1], t) by {
      assert ks[i + 1] == Next(ks[i], Wake(t));
      WakeTouches(ks[i], t);
    }
    StaysOffOverRuns(ks, steps, t, i + 1, j);
    InSomeRingIffQueued(ks[j].s.q.rings, t);
  }

  lemma WakeTouches(k: Kernel, t: Tid)
    requires Typed(k) && Enabled(k, Wake(t))
    ensures Next(k, Wake(t)).s.threads == k.s.threads
  {
  }

  // The contract of waitqueue_wait: a preemptible thread only gets past its
  // yield when it has been removed from the wait queue.
  lemma BlocksUntilDequeued(ks: seq<Kernel>, steps: seq<Step>, i: nat, t: Tid)
    requires IsRun(ks, steps) && Initially(ks[0]) && i < |steps| && steps[i] == Clear(t)
    requires ks[i].s.threads[t].nonpreempt == 0
    ensures !ks[i].s.threads[t].onQueue
  {
    ThreadsOkOverRuns(ks, steps, i);
    assert ThreadOk(ks[i], t);
  }

  // ... and exactly a thread that is not preemptible runs on at once while it
  // is still queued.
  lemma YieldReturnsEarlyIff(k: Kernel, t: Tid)
    requires ThreadsOk(k) && Enabled(k, Yield(t))
    ensures var k' := Next(k, Yield(t));
      (k'.s.current == t && k'.s.threads[t].onQueue) <==> (k.s.threads[t].onQueue && k.s.threads[t].nonpreempt > 0)
  {
    assert ThreadOk(k, t);
    PreemptFlags(k.s, t);
  }

  // As written, waitqueue_enter does not store the queue: then no thread is ever
  // suspended, and no preemption puts a thread into the blocked ring.
  lemma WithoutStoreNobodyBlocks(s: Sched)
    requires Known(s) && forall t | t in s.threads :: !s.threads[t].onQueue
    ensures forall u | u in Preempt(s).blocked :: u in s.blocked
  {
    forall u | u in Preempt(s).blocked ensures u in s.blocked {
      PreemptBlocks(s, u);
    }
  }

  /////////////// Without the discipline ///////////////

  // `steps`, taken one after the other from `k`, end in `k'`.
  ghost predicate Leads(k: Kernel, steps: seq<Step>, k': Kernel)
    decreases |steps|
  {
    if steps == [] then k == k'
    else Typed(k) && Enabled(k, steps[0]) && Leads(Next(k, steps[0]), steps[1..], k')
  }

  lemma {:induction false} StepLeads(k: Kernel, step: Step, steps: seq<Step>, k': Kernel)
    requires Typed(k) && Enabled(k, step) && Leads(Next(k, step), steps, k')
    ensures Leads(k, [step] + steps, k')
  {
    assert ([step] + steps)[1..] == steps;
  }

  // A waker that read the owner of a preempted thread before it was taken away
  // puts it back.
  lemma {:induction false} StaleWakeBreaks(k: Kernel, t: Tid)
    requires Typed(k) && Conserved(k.s) && Enabled(k, Wake(t))
    requires t !in Members(k.s) && t != k.s.idle && k.s.threads[t].preempted
    ensures t in Members(Next(k, Wake(t)).s) && !Conserved(Next(k, Wake(t)).s)
  {
    ActualizeConservesIff(k.s, t);
  }

  // The scheduler has lost `t`, which was preempted, but still counts as its owner.
  ghost predicate Gone(k: Kernel, t: Tid) {
    && Typed(k) && Conserved(k.s) && t in k.pc
    && t !in Members(k.s) && t != k.s.idle && k.s.threads[t].preempted && k.s.threads[t].owned
  }

  lemma {:induction false} RemovalTakes(k: Kernel, t: Tid)
    requires Inv(k) && SchedOps.Remove(k.s).1 == Some(t) && k.s.threads[t].preempted
    ensures Gone(Next(k, Remove), t)
    ensures Next(k, Remove) == k.(s := Next(k, Remove).s, leaving := k.leaving + {t})
    ensures Next(k, Remove).s.threads == k.s.threads
    ensures t !in k.leaving && t !in k.arriving
  {
    hide Conserved;
    hide Members;
    RemoveConserves(k.s);
    NotTwice(k.s, t);
    NextIsQueued(k.s);
    assert PlaceOk(k, t);
  }

  lemma {:induction false} GoneStays(k: Kernel, t: Tid, step: Step)
    requires Gone(k, t) && Enabled(k, step) && (step == Dequeue(t) || step == ReadCpu(t))
    ensures Gone(Next(k, step), t)
    ensures if step.Dequeue? then t in Next(k, step).pending else t in Next(k, step).inHand
    ensures Next(k, step).arriving == k.arriving
  {
    SetConserves(k.s, t, k.s.threads[t].(onQueue := false));
    hide Conserved;
    hide Members;
  }

  // Steps until a waker has read the owner.
  ghost function ToRead(k: Kernel, t: Tid): nat {
    if t in k.inHand then 0 else if t in k.pending then 1 else 2
  }

  // The next step of the waker brings the break nearer.
  lemma {:induction false} WakerGoesOn(k: Kernel, t: Tid) returns (step: Step)
    requires Gone(k, t) && !Free(k, t)
    ensures Enabled(k, step) && (step.Dequeue? || step.ReadCpu? || step.Wake?)
    ensures step.Wake? ==> !Conserved(Next(k, step).s)
    ensures !step.Wake? ==>
              var k' := Next(k, step); Gone(k', t) && !Free(k', t) && ToRead(k', t) < ToRead(k, t)
  {
    step := if t in k.inHand then Wake(t) else if t in k.pending then ReadCpu(t) else Dequeue(t);
    hide Conserved;
    hide Members;
    hide Actualize;
    if step.Wake? {
      StaleWakeBreaks(k, t);
    } else {
      GoneStays(k, t, step);
    }
  }

  lemma {:induction false} GoneBreaks(k: Kernel, t: Tid) returns (steps: seq<Step>, k': Kernel)
    requires Gone(k, t) && !Free(k, t)
    ensures Leads(k, steps, k') && !Conserved(k'.s)
    ensures forall step | step in steps :: step.Dequeue? || step.ReadCpu? || step.Wake?
    decreases ToRead(k, t)
  {
    hide Next;
    hide Enabled;
    hide Conserved;
    hide Known;
    hide ToRead;
    var step := WakerGoesOn(k, t);
    if step.Wake? {
      steps, k' := [], Next(k, step);
    } else {
      steps, k' := GoneBreaks(Next(k, step), t);
    }
    StepLeads(k, step, steps, k');
    steps := [step] + steps;
  }

  // Whenever an unsafe removal is possible, the wake-up of the thread it takes can
  // come in such that the thread is back in the scheduler and the count is wrong.
  lemma {:induction false} UnsafeRemovalBreaks(k: Kernel) returns (steps: seq<Step>, k': Kernel)
    requires Inv(k) && !Safe(k, Remove)
    ensures Leads(k, [Remove] + steps, k') && !Conserved(k'.s)
    ensures forall step | step in steps :: step.Dequeue? || step.ReadCpu? || step.Wake?
  {
    hide SchedOps.Remove;
    var t := SchedOps.Remove(k.s).1.value;
    RemovalTakes(k, t);
    hide Next;
    hide Gone;
    hide Leads;
    steps, k' := GoneBreaks(Next(k, Remove), t);
    StepLeads(k, Remove, steps, k');
  }

  // The same race in a migration: the thread ends up in two places.
  lemma {:induction false} ArrivalRace(k: Kernel, t: Tid)
    requires Gone(k, t) && t in k.arriving && t in k.inHand
    ensures Enabled(k, Wake(t)) && Enabled(Next(k, Wake(t)), Insert(t))
    ensures Places(Next(Next(k, Wake(t)), Insert(t)).s, t) == 2
  {
    hide Conserved;
    hide Places;
    hide Actualize;
    hide SchedOps.Insert;
    hide Known;
    EnqueuedTwice(k.s, t);
  }

  lemma {:induction false} EnqueuedTwice(s: Sched, t: Tid)
    requires Conserved(s) && t in s.threads && t !in Members(s) && t != s.idle && s.threads[t].preempted
    ensures Places(SchedOps.Insert(Actualize(s, t), t), t) == 2
  {
    assert Places(s, t) == 0 && t != s.current;
    ActualizePlaces(s, t, t);
    var s1 := Actualize(s, t);
    hide Actualize;
    hide Conserved;
    EnterPlaces(s1, t, t);
  }

  lemma {:induction false} ArrivalWindow(k: Kernel, t: Tid) returns (k': Kernel)
    requires Gone(k, t) && t in k.arriving && k.s.threads[t].onQueue
    ensures Leads(k, [Dequeue(t), ReadCpu(t), Wake(t), Insert(t)], k') && Places(k'.s, t) == 2
  {
    hide Next;
    hide Conserved;
    hide Members;
    GoneStays(k, t, Dequeue(t));
    var k1 := Next(k, Dequeue(t));
    GoneStays(k1, t, ReadCpu(t));
    var k2 := Next(k1, ReadCpu(t));
    ArrivalRace(k2, t);
    var k3 := Next(k2, Wake(t));
    k' := Next(k3, Insert(t));
    hide Enabled;
    hide Places;
    StepLeads(k3, Insert(t), [], k');
    StepLeads(k2, Wake(t), [Insert(t)], k');
    StepLeads(k1, ReadCpu(t), [Wake(t), Insert(t)], k');
    StepLeads(k, Dequeue(t), [ReadCpu(t), Wake(t), Insert(t)], k');
    hide Leads;
    assert [Dequeue(t), ReadCpu(t), Wake(t), Insert(t)] == [Dequeue(t)] + [ReadCpu(t), Wake(t), Insert(t)];
    assert [ReadCpu(t), Wake(t), Insert(t)] == [ReadCpu(t)] + [Wake(t), Insert(t)];
    assert [Wake(t), Insert(t)] == [Wake(t)] + [Insert(t)];
  }

  lemma {:induction false} OwnerRewritten(k: Kernel, t: Tid)
    requires Gone(k, t) && t in k.leaving && t !in k.arriving
    ensures Enabled(k, ClearOwner(t)) && Enabled(Next(k, ClearOwner(t)), SetOwner(t))
    ensures var k' := Next(Next(k, ClearOwner(t)), SetOwner(t));
      Gone(k', t) && t in k'.arriving && k'.s.threads == k.s.threads
  {
    var th := k.s.threads[t].(owned := false);
    SetConserves(k.s, t, th);
    SetConserves(Set(k.s, t, th), t, th.(owned := true));
    hide Conserved;
    hide Members;
  }

  // A thread that was removed while on its wait queue, and is inserted again, is in
  // two places if it is woken in between.
  lemma {:induction false} MigrationRace(k: Kernel, t: Tid) returns (k': Kernel)
    requires Inv(k) && SchedOps.Remove(k.s).1 == Some(t) && k.s.threads[t].preempted && k.s.threads[t].onQueue
    ensures Leads(k, [Remove, ClearOwner(t), SetOwner(t), Dequeue(t), ReadCpu(t), Wake(t), Insert(t)], k')
    ensures Places(k'.s, t) == 2
  {
    hide SchedOps.Remove;
    hide Next;
    hide Leads;
    hide Conserved;
    hide Members;
    hide Known;
    RemovalTakes(k, t);
    assert Typed(k) && Enabled(k, Remove);
    hide Inv;
    hide Enabled;
    var k1 := Next(k, Remove);
    OwnerRewritten(k1, t);
    var k2 := Next(k1, ClearOwner(t));
    k' := ArrivalWindow(Next(k2, SetOwner(t)), t);
    var tail := [Dequeue(t), ReadCpu(t), Wake(t), Insert(t)];
    StepLeads(k2, SetOwner(t), tail, k');
    StepLeads(k1, ClearOwner(t), [SetOwner(t)] + tail, k');
    StepLeads(k, Remove, [ClearOwner(t)] + ([SetOwner(t)] + tail), k');
    assert [Remove, ClearOwner(t), SetOwner(t), Dequeue(t), ReadCpu(t), Wake(t), Insert(t)]
        == [Remove] + ([ClearOwner(t)] + ([SetOwner(t)] + tail));
  }

  // A thread that alone waits for its turn is the next one.
  lemma {:induction false} OnlyOneWaits(k: Kernel, t: Tid)
    requires Inv(k) && t in Members(k.s) && t != k.s.current && !k.s.threads[t].queueWait
    requires Members(k.s) <= {t, k.s.current}
    ensures ScheduleNext(k.s).1 == Some(t)
  {
    ExactlyOnePlace(k.s, t);
    assert t in k.s.blocked ==> BlockedOk(k, t);
    var i :| 0 <= i < |k.s.q.rings| && t in k.s.q.rings[i];
    assert Runnable(k.s.q)[i];
    var (s1, popped) := PassStep(k.s);
    assert popped.Some?;
    var m := Selected(k.s.q).value;
    assert popped.value in k.s.q.rings[m];
    ExactlyOnePlace(k.s, popped.value);
    assert InSomeRing(k.s, popped.value);
  }

  // A new thread is taken in, in two steps.
  lemma {:induction false} Announced(k: Kernel, t: Tid)
    requires Inv(k) && Enabled(k, SetOwner(t))
    ensures var k' := Next(k, SetOwner(t));
      && Inv(k') && Members(k'.s) == Members(k.s) && Enabled(k', Insert(t))
      && k' == k.(s := k.s.(threads := k.s.threads[t := k.s.threads[t].(owned := true)]), arriving := k.arriving + {t})
  {
    hide Conserved;
    hide Members;
    hide Known;
    SetConserves(k.s, t, k.s.threads[t].(owned := true));
    StepKeepsInv(k, SetOwner(t));
  }

  lemma {:induction false} Inserted(k: Kernel, t: Tid)
    requires Inv(k) && Enabled(k, Insert(t))
    ensures var k' := Next(k, Insert(t));
      && Inv(k') && Members(k'.s) == Members(k.s) + {t} && k' == k.(s := k'.s, arriving := k.arriving - {t})
      && k'.s.current == k.s.current && k'.s.idle == k.s.idle && k'.s.threads == k.s.threads
  {
    hide Conserved;
    hide Members;
    hide Known;
    hide SchedOps.Insert;
    StepKeepsInv(k, Insert(t));
    InsertConservesIff(k.s, t);
    assert Conserved(SchedOps.Insert(k.s, t));
  }

  lemma {:induction false} TakenIn(k: Kernel, t: Tid)
    requires Inv(k) && Enabled(k, SetOwner(t))
    ensures var k1 := Next(k, SetOwner(t)); Enabled(k1, Insert(t)) && Leads(k, [SetOwner(t), Insert(t)], Next(k1, Insert(t)))
    ensures var k' := Next(Next(k, SetOwner(t)), Insert(t));
      && Inv(k') && Members(k'.s) == Members(k.s) + {t} && k'.pc == k.pc
      && k'.leaving == k.leaving && k'.arriving == k.arriving - {t}
      && k'.s.current == k.s.current && k'.s.idle == k.s.idle
      && k'.s.threads == k.s.threads[t := k.s.threads[t].(owned := true)]
  {
    hide Conserved;
    hide Members;
    hide Known;
    hide Next;
    Announced(k, t);
    var k1 := Next(k, SetOwner(t));
    Inserted(k1, t);
    var k' := Next(k1, Insert(t));
    assert Typed(k) && Typed(k1);
    hide Inv;
    hide Enabled;
    StepLeads(k1, Insert(t), [], k');
    StepLeads(k, SetOwner(t), [Insert(t)], k');
    hide Leads;
    assert [SetOwner(t), Insert(t)] == [SetOwner(t)] + [Insert(t)];
  }

  lemma {:induction false} TakesTurn(k: Kernel, t: Tid)
    requires Inv(k) && t in Members(k.s) && t != k.s.current && !k.s.threads[t].queueWait
    requires Members(k.s) <= {t, k.s.current}
    requires !k.s.threads[k.s.current].lockSched && k.s.threads[k.s.current].nonpreempt == 0
    ensures var k' := Next(k, Timer);
      && Inv(k') && Members(k'.s) == Members(k.s) && k' == k.(s := k'.s)
      && k'.s.current == t && k'.s.idle == k.s.idle && k'.s.threads.Keys == k.s.threads.Keys
      && k'.s.threads[k.s.current].preempted
      && forall u | u in k.s.threads ::
           && k'.s.threads[u].onQueue == k.s.threads[u].onQueue && k'.s.threads[u].queueWait == k.s.threads[u].queueWait
           && k'.s.threads[u].lockSched == k.s.threads[u].lockSched && k'.s.threads[u].nonpreempt == k.s.threads[u].nonpreempt
  {
    OnlyOneWaits(k, t);
    StepKeepsInv(k, Timer);
    PreemptConserves(k.s);
    hide ScheduleNext;
    hide Reenqueue;
    hide Conserved;
    hide Members;
    assert Preempt(k.s).current == t;
    hide Preempt;
    forall u | u in k.s.threads
      ensures var th, th' := k.s.threads[u], Preempt(k.s).threads[u];
        th' == th.(preempted := th'.preempted, owned := th'.owned)
    {
      PreemptFlags(k.s, u);
    }
    PreemptFlags(k.s, k.s.current);
  }

  lemma {:induction false} LeadsOn(k: Kernel, steps: seq<Step>, k1: Kernel, more: seq<Step>, k2: Kernel)
    requires Leads(k, steps, k1) && Leads(k1, more, k2)
    ensures Leads(k, steps + more, k2)
    decreases |steps|
  {
    hide Enabled;
    hide Next;
    hide Typed;
    if steps == [] {
      assert steps + more == more;
    } else {
      LeadsOn(Next(k, steps[0]), steps[1..], k1, more, k2);
      assert (steps + more)[1..] == steps[1..] + more;
    }
  }

  // An idle thread 0 and threads 1 and 2: which of them the scheduler has, which one
  // runs, and which are on a wait queue without having announced it.
  ghost predicate Scene(k: Kernel, members: set<Tid>, current: Tid, queued: set<Tid>) {
    && Inv(k) && k.pc.Keys == {0, 1, 2} && k.s.idle == 0 && k.s.current == current
    && Members(k.s) == members && k.leaving == {} && k.arriving == {}
    && forall t | t in k.pc ::
         var th := k.s.threads[t];
         && !th.queueWait && !th.lockSched && th.nonpreempt == 0
         && (th.onQueue <==> t in queued) && k.pc[t] == if t in queued then Entered else Away
  }

  lemma {:induction false} SceneStart() returns (k: Kernel)
    ensures Initially(k) && Scene(k, {}, 0, {})
  {
    var th := Thread(false, false, false, false, false, 0, 0);
    var table: map<Tid, Thread> := map[0 := th, 1 := th, 2 := th];
    k := Kernel(Fresh(0, table), map[0 := Away, 1 := Away, 2 := Away], multiset{}, multiset{}, {}, {});
    InitiallyInv(k);
    FreshConserved(0, table);
    hide Inv;
    hide Members;
  }

  lemma {:induction false} SceneInsert(k: Kernel, m: set<Tid>, c: Tid, w: set<Tid>, t: Tid) returns (k': Kernel)
    requires Scene(k, m, c, w) && t in {1, 2} && t !in m
    ensures Scene(k', m + {t}, c, w) && Leads(k, [SetOwner(t), Insert(t)], k')
  {
    hide Next;
    hide Leads;
    hide Members;
    hide Conserved;
    hide Known;
    assert t in k.pc && Typed(k);
    assert Enabled(k, SetOwner(t));
    hide Inv;
    hide Enabled;
    TakenIn(k, t);
    k' := Next(Next(k, SetOwner(t)), Insert(t));
  }

  lemma {:induction false} SceneTurn(k: Kernel, m: set<Tid>, c: Tid, w: set<Tid>, t: Tid) returns (k': Kernel)
    requires Scene(k, m, c, w) && t in m && t != c && m <= {t, c}
    ensures Scene(k', m, t, w) && Leads(k, [Timer], k') && k'.s.threads[c].preempted
  {
    assert t in k.pc;
    hide Next;
    hide Members;
    hide Conserved;
    TakesTurn(k, t);
    hide Inv;
    k' := Next(k, Timer);
    StepLeads(k, Timer, [], k');
  }

  lemma {:induction false} SceneEnter(k: Kernel, m: set<Tid>, c: Tid, w: set<Tid>) returns (k': Kernel)
    requires Scene(k, m, c, w) && c != 0 && c !in w
    ensures Scene(k', m, c, w + {c}) && Leads(k, [Enter(c)], k')
  {
    hide Conserved;
    hide Members;
    assert c in k.pc;
    StepKeepsInv(k, Enter(c));
    SetConserves(k.s, c, k.s.threads[c].(onQueue := true));
    k' := Next(k, Enter(c));
    StepLeads(k, Enter(c), [], k');
    hide Inv;
  }

  // Such a state is reachable: thread 1 is preempted right after it entered a wait
  // queue, and is the next to be removed.
  lemma {:induction false} UnsafeReachable() returns (k0: Kernel, steps: seq<Step>, k: Kernel)
    ensures Initially(k0) && Leads(k0, steps, k) && Remove !in steps
    ensures Inv(k) && SchedOps.Remove(k.s).1 == Some(1) && k.s.threads[1].preempted && k.s.threads[1].onQueue
  {
    hide Leads;
    hide Initially;
    hide Scene;
    k0 := SceneStart();
    var k1 := SceneInsert(k0, {}, 0, {}, 1);
    var k2 := SceneTurn(k1, {} + {1}, 0, {}, 1);
    var k3 := SceneEnter(k2, {} + {1}, 1, {});
    var k4 := SceneInsert(k3, {} + {1}, 1, {} + {1}, 2);
    k := SceneTurn(k4, {} + {1} + {2}, 1, {} + {1}, 2);
    LeadsOn(k3, [SetOwner(2), Insert(2)], k4, [Timer], k);
    LeadsOn(k2, [Enter(1)], k3, [SetOwner(2), Insert(2)] + [Timer], k);
    LeadsOn(k1, [Timer], k2, [Enter(1)] + ([SetOwner(2), Insert(2)] + [Timer]), k);
    steps := [SetOwner(1), Insert(1)] + ([Timer] + ([Enter(1)] + ([SetOwner(2), Insert(2)] + [Timer])));
    LeadsOn(k0, [SetOwner(1), Insert(1)], k1, [Timer] + ([Enter(1)] + ([SetOwner(2), Insert(2)] + [Timer])), k);
    SceneUnsafe(k);
  }

  lemma {:induction false} SceneUnsafe(k: Kernel)
    requires Scene(k, {} + {1} + {2}, 2, {} + {1})
    ensures Inv(k) && SchedOps.Remove(k.s).1 == Some(1) && k.s.threads[1].onQueue
  {
    assert 1 in k.pc;
    OnlyOneWaits(k, 1);
    hide ScheduleNext;
  }

  // From the start of the kernel, a removal and a wake-up can leave a thread in the
  // scheduler that was handed out, and a migration and a wake-up can leave a thread
  // in two places.
  lemma {:induction false} RacesHappen() returns (k0: Kernel, xs: seq<Step>, k1: Kernel, ys: seq<Step>, k2: Kernel)
    ensures Initially(k0)
    ensures Leads(k0, xs, k1) && !Conserved(k1.s)
    ensures Leads(k0, ys, k2) && Places(k2.s, 1) == 2
  {
    var steps, k;
    k0, steps, k := UnsafeReachable();
    assert Typed(k);
    assert !Safe(k, Remove) by {
      assert SchedOps.Remove(k.s).1 == Some(1);
      hide SchedOps.Remove;
    }
    hide SchedOps.Remove;
    hide Leads;
    hide Inv;
    hide Conserved;
    hide Initially;
    hide Places;
    var more;
    more, k1 := UnsafeRemovalBreaks(k);
    LeadsOn(k0, steps, k, [Remove] + more, k1);
    xs := steps + ([Remove] + more);
    k2 := MigrationRace(k, 1);
    ys := [Remove, ClearOwner(1), SetOwner(1), Dequeue(1), ReadCpu(1), Wake(1), Insert(1)];
    LeadsOn(k0, steps, k, ys, k2);
    ys := steps + ys;
  }
}
