// Every scheduler operation is a run of ring events, so the bounds on rings
// carry over to whole runs of operations (system/kern/kern_sched.c).
module SchedRuns {
  import opened Basics
  import opened SchedQueue
  import opened SchedOps

  // The passes of one call of sched_schedule_next, one per restart.
  ghost function NextTrace(s: Sched): (es: seq<Event>)
    requires Known(s)
    ensures forall e | e in es :: e == Pass
    decreases RingSizes(s.q.rings)
  {
    var (s1, popped) := PassStep(s);
    if popped.Some? && Suspended(s1, popped.value)
    then [Pass] + NextTrace(s1.(blocked := s1.blocked + [popped.value]))
    else [Pass]
  }

  ghost function EnterTrace(s: Sched, t: Tid): (es: seq<Event>)
    requires Known(s) && t in s.threads
    ensures forall e | e in es :: Admissible(e) && e.Enqueue?
  {
    if t == s.idle || Suspended(s, t) then [] else [Enqueue(t, Ring(s, t))]
  }

  // What the operation does to the rings, event by event.
  ghost function Trace(s: Sched, op: Op): (es: seq<Event>)
    requires Known(s) && Allowed(s, op)
    ensures forall e | e in es :: Admissible(e)
    ensures forall t | Detach(t) in es :: op == DoActualize(t)
  {
    match op
    case DoInsert(t) => EnterTrace(s, t)
    case DoRemove => NextTrace(s)
    case DoActualize(t) =>
      if !s.threads[t].preempted then [] else [Detach(t)] + EnterTrace(Unlink(s, t), t)
    case DoPreempt =>
      var othr := s.current;
      if s.threads[othr].lockSched || s.threads[othr].nonpreempt > 0 then []
      else
        var (s1, found) := ScheduleNext(s);
        var next := if found.Some? then found.value else if !Suspended(s1, othr) then othr else s1.idle;
        NextTrace(s) + (if next == othr then [] else EnterTrace(s1, othr))
    case Touch(_, _, _, _, _, _, _) => []
  }

  lemma {:induction false} RunConcat(q: Queues, es: seq<Event>, fs: seq<Event>)
    requires WellFormed(q) && (forall e | e in es :: Admissible(e)) && (forall e | e in fs :: Admissible(e))
    ensures Run(q, es + fs) == Run(Run(q, es), fs)
    ensures Passes(es + fs) == Passes(es) + Passes(fs)
    decreases |es|
  {
    if es == [] {
      assert es + fs == fs;
    } else {
      assert (es + fs)[1..] == es[1..] + fs;
      RunConcat(Apply(q, es[0]), es[1..], fs);
    }
  }

  lemma {:induction false} NextTraceRuns(s: Sched)
    requires Known(s)
    ensures Run(s.q, NextTrace(s)) == ScheduleNext(s).0.q
    decreases RingSizes(s.q.rings)
  {
    var (s1, popped) := PassStep(s);
    if popped.Some? && Suspended(s1, popped.value) {
      NextTraceRuns(s1.(blocked := s1.blocked + [popped.value]));
    }
  }

  lemma EnterTraceRuns(s: Sched, t: Tid)
    requires Known(s) && t in s.threads
    ensures Run(s.q, EnterTrace(s, t)) == Reenqueue(s, t).q
  {
  }

  lemma ActualizeTraceRuns(s: Sched, t: Tid)
    requires Known(s) && t in s.threads
    ensures Run(s.q, Trace(s, DoActualize(t))) == Actualize(s, t).q
  {
    if s.threads[t].preempted {
      var fs := EnterTrace(Unlink(s, t), t);
      RunConcat(s.q, [Detach(t)], fs);
      assert Run(s.q, [Detach(t)]) == Unlink(s, t).q;
      EnterTraceRuns(Unlink(s, t), t);
    }
  }

  lemma PreemptTraceRuns(s: Sched)
    requires Known(s)
    ensures Run(s.q, Trace(s, DoPreempt)) == Preempt(s).q
  {
    var othr := s.current;
    if !s.threads[othr].lockSched && s.threads[othr].nonpreempt == 0 {
      NextTraceRuns(s);
      var (s1, found) := ScheduleNext(s);
      var next := if found.Some? then found.value else if !Suspended(s1, othr) then othr else s1.idle;
      var fs := if next == othr then [] else EnterTrace(s1, othr);
      RunConcat(s.q, NextTrace(s), fs);
      EnterTraceRuns(s1, othr);
      SwitchQueues(s1, next);
    }
  }

  lemma SwitchQueues(s: Sched, next: Tid)
    requires Known(s) && next in s.threads
    ensures SwitchTo(s, next).q == if next == s.current then s.q else Reenqueue(s, s.current).q
  {
  }

  lemma TraceRuns(s: Sched, op: Op)
    requires Known(s) && Allowed(s, op)
    ensures Run(s.q, Trace(s, op)) == Step(s, op).q
  {
    match op {
      case DoInsert(t) => EnterTraceRuns(s, t);
      case DoRemove => NextTraceRuns(s);
      case DoActualize(t) => ActualizeTraceRuns(s, t);
      case DoPreempt => PreemptTraceRuns(s);
      case Touch(_, _, _, _, _, _, _) =>
    }
  }

  ghost function RunTrace(ss: seq<Sched>, ops: seq<Op>): (es: seq<Event>)
    requires IsRun(ss, ops)
    ensures forall e | e in es :: Admissible(e)
    ensures forall t | Detach(t) in es :: DoActualize(t) in ops
    decreases |ops|
  {
    if ops == [] then [] else Trace(ss[0], ops[0]) + RunTrace(ss[1..], ops[1..])
  }

  // The rings after a run of operations are the rings after its trace.
  lemma {:induction false} RunTraceRuns(ss: seq<Sched>, ops: seq<Op>)
    requires IsRun(ss, ops) && WellFormed(ss[0].q)
    ensures Run(ss[0].q, RunTrace(ss, ops)) == ss[|ops|].q
    decreases |ops|
  {
    if ops != [] {
      TraceRuns(ss[0], ops[0]);
      RunTraceRuns(ss[1..], ops[1..]);
      RunConcat(ss[0].q, Trace(ss[0], ops[0]), RunTrace(ss[1..], ops[1..]));
    }
  }

  // Over every run of inserts, removals, actualizations and preemptions the
  // decaying values stay within [-(NRQS-2), sched_prios[i]].
  lemma DecayOverOperations(ss: seq<Sched>, ops: seq<Op>, i: nat)
    requires IsRun(ss, ops) && DecayOk(ss[0].q) && i < NRQS
    ensures DecayOk(ss[|ops|].q) && -(NRQS - 2) <= ss[|ops|].q.decay[i] <= Prio(i)
  {
    RunTraceRuns(ss, ops);
    DecayOverRuns(ss[0].q, RunTrace(ss, ops));
    DecayLowerBound(ss[|ops|].q, i);
  }

  // A scheduling turn: a removal, or a preemption the current thread permits.
  ghost predicate IsTurn(s: Sched, op: Op)
    requires Known(s)
  {
    var othr := s.threads[s.current];
    op.DoRemove? || (op.DoPreempt? && !othr.lockSched && othr.nonpreempt == 0)
  }

  ghost function Turns(ss: seq<Sched>, ops: seq<Op>): nat
    requires IsRun(ss, ops)
    decreases |ops|
  {
    if ops == [] then 0 else (if IsTurn(ss[0], ops[0]) then 1 else 0) + Turns(ss[1..], ops[1..])
  }

  lemma {:induction false} TurnsArePasses(ss: seq<Sched>, ops: seq<Op>)
    requires IsRun(ss, ops) && WellFormed(ss[0].q)
    ensures Turns(ss, ops) <= Passes(RunTrace(ss, ops))
    decreases |ops|
  {
    if ops != [] {
      var es := Trace(ss[0], ops[0]);
      assert IsTurn(ss[0], ops[0]) ==> es != [] && es[0] == Pass && Passes(es) >= 1;
      TurnsArePasses(ss[1..], ops[1..]);
      RunConcat(ss[0].q, es, RunTrace(ss[1..], ops[1..]));
    }
  }

  // No starvation: whatever other threads are inserted, removed, blocked, woken
  // and switched to, a queued thread with `p` threads ahead of it is popped before
  // (p+1) * (sched_prios[i] + NRQS - 1) scheduling turns are over, unless it is
  // itself taken out of its ring by an actualization.
  lemma {:induction false} NoStarvation(ss: seq<Sched>, ops: seq<Op>, i: nat, t: Tid, p: nat)
    requires IsRun(ss, ops) && DecayOk(ss[0].q) && i < NRQS
    requires Ahead(ss[0].q, i, t, p) && DoActualize(t) !in ops
    requires Turns(ss, ops) >= (p + 1) * Patience(i)
    ensures Pops(ss[0].q, RunTrace(ss, ops), i, t)
  {
    TurnsArePasses(ss, ops);
    FifoWaiting(ss[0].q, RunTrace(ss, ops), i, t, p);
  }
}
