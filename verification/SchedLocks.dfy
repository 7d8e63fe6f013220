// The scheduler locks and THREAD_SF_LOCK_SCHED (system/kern/kern_sched.c), for
// any number of CPUs, each with a scheduler and its lock.
//
// A thread that works on a scheduler sets its flag, takes the lock, releases the
// lock and clears the flag, one step at a time.  A preemption event interrupts
// the thread that runs on a CPU between any two of its steps; the handler looks
// at the flag and at the non-preemption counter and then spins for the lock of
// its own CPU's scheduler.
module SchedLocks {
  import opened Basics

  type Id = nat

  // Where a thread is in sched_insert, sched_remove or sched_actualize; `at` is
  // the CPU that executes it and `target` the one whose scheduler it works on.
  datatype Section =
    | Outside
    | Flagged(at: Id, target: Id)    // flag set, lock wanted
    | Holding(at: Id, target: Id)    // lock held
    | Leaving(at: Id)                // lock released, flag still set

  datatype Handler = Inactive | Spinning | Switching

  datatype Owner = Free | ByThread(t: Tid) | ByHandler

  datatype Cpu = Cpu(current: Tid, handler: Handler, lock: Owner)

  datatype Thread = Thread(section: Section, lockSched: bool, nonpreempt: nat)

  datatype Machine = Machine(cpus: map<Id, Cpu>, threads: map<Tid, Thread>)

  datatype Step =
    | SetFlag(c: Id, target: Id)           // ORDERED_APPLY ... | THREAD_SF_LOCK_SCHED
    | Lock(c: Id)                          // kernlock_lock succeeds
    | Unlock(c: Id)
    | ClearFlag(c: Id)
    | SetNonpreempt(c: Id, n: nat)
    | Interrupt(c: Id)                     // sched_preempt up to its two tests
    | HandlerLock(c: Id)                   // sched_preempt gets the lock
    | HandlerSwitch(c: Id, next: Tid)      // ... switches threads and releases it

  ghost predicate Typed(m: Machine) {
    forall c | c in m.cpus :: m.cpus[c].current in m.threads
  }

  // Thread code runs only while no handler is active on its CPU.
  ghost predicate Enabled(m: Machine, step: Step) {
    && Typed(m)
    && step.c in m.cpus
    && var cpu := m.cpus[step.c];
      var section := m.threads[cpu.current].section;
      match step
      case SetFlag(_, target) => cpu.handler == Inactive && section == Outside && target in m.cpus
      case Lock(_) =>
        cpu.handler == Inactive && section.Flagged? && section.target in m.cpus && m.cpus[section.target].lock == Free
      case Unlock(_) => cpu.handler == Inactive && section.Holding? && section.target in m.cpus
      case ClearFlag(_) => cpu.handler == Inactive && section.Leaving?
      case SetNonpreempt(_, _) => cpu.handler == Inactive
      case Interrupt(_) => cpu.handler == Inactive
      case HandlerLock(_) => cpu.handler == Spinning && cpu.lock == Free
      case HandlerSwitch(_, next) =>
        && cpu.handler == Switching && next in m.threads
        && forall d | d in m.cpus && d != step.c :: m.cpus[d].current != next
  }

  function SetThread(m: Machine, t: Tid, th: Thread): Machine {
    m.(threads := m.threads[t := th])
  }

  function SetCpu(m: Machine, c: Id, cpu: Cpu): Machine {
    m.(cpus := m.cpus[c := cpu])
  }

  ghost function Next(m: Machine, step: Step): Machine
    requires Enabled(m, step)
  {
    var c := step.c;
    var cpu := m.cpus[c];
    var t := cpu.current;
    var th := m.threads[t];
    match step
    case SetFlag(_, target) => SetThread(m, t, th.(lockSched := true, section := Flagged(c, target)))
    case Lock(_) =>
      var target := th.section.target;
      SetThread(SetCpu(m, target, m.cpus[target].(lock := ByThread(t))), t, th.(section := Holding(c, target)))
    case Unlock(_) =>
      var target := th.section.target;
      SetThread(SetCpu(m, target, m.cpus[target].(lock := Free)), t, th.(section := Leaving(c)))
    case ClearFlag(_) => SetThread(m, t, th.(lockSched := false, section := Outside))
    case SetNonpreempt(_, n) => SetThread(m, t, th.(nonpreempt := n))
    case Interrupt(_) =>
      if th.lockSched || th.nonpreempt > 0 then m else SetCpu(m, c, cpu.(handler := Spinning))
    case HandlerLock(_) => SetCpu(m, c, cpu.(handler := Switching, lock := ByHandler))
    case HandlerSwitch(_, next) => SetCpu(m, c, Cpu(next, Inactive, Free))
  }

  /////////////// The invariant ///////////////

  // The flag covers the section, and a thread in its section is running on its
  // CPU, not interrupted; the lock word names the thread that holds the lock.
  ghost predicate ThreadOk(m: Machine, t: Tid)
    requires t in m.threads
  {
    var section := m.threads[t].section;
    && (m.threads[t].lockSched <==> section != Outside)
    && (section != Outside ==>
          section.at in m.cpus && m.cpus[section.at].current == t && m.cpus[section.at].handler == Inactive)
    && (section.Flagged? || section.Holding? ==> section.target in m.cpus)
    && (section.Holding? ==> m.cpus[section.target].lock == ByThread(t))
  }

  ghost predicate CpuOk(m: Machine, c: Id)
    requires c in m.cpus
  {
    var cpu := m.cpus[c];
    && cpu.current in m.threads
    && (forall d | d in m.cpus && d != c :: m.cpus[d].current != cpu.current)
    && (cpu.lock.ByThread? ==>
          var t := cpu.lock.t;
          t in m.threads && m.threads[t].section.Holding? && m.threads[t].section.target == c)
    && (cpu.lock.ByHandler? <==> cpu.handler == Switching)
    && (cpu.handler != Inactive ==> m.threads[cpu.current].nonpreempt == 0)
  }

  ghost predicate Inv(m: Machine) {
    (forall t | t in m.threads :: ThreadOk(m, t)) && (forall c | c in m.cpus :: CpuOk(m, c))
  }

  lemma StepThread(m: Machine, step: Step, t: Tid)
    requires Inv(m) && Enabled(m, step) && t in m.threads
    ensures t in Next(m, step).threads && ThreadOk(Next(m, step), t)
  {
    assert CpuOk(m, step.c) && ThreadOk(m, m.cpus[step.c].current) && ThreadOk(m, t);
  }

  lemma StepCpu(m: Machine, step: Step, c: Id)
    requires Inv(m) && Enabled(m, step) && c in m.cpus
    ensures c in Next(m, step).cpus && CpuOk(Next(m, step), c)
  {
    var m' := Next(m, step);
    assert CpuOk(m, step.c) && ThreadOk(m, m.cpus[step.c].current) && CpuOk(m, c);
    forall d | d in m'.cpus && d != c ensures m'.cpus[d].current != m'.cpus[c].current {
      assert CpuOk(m, d);
    }
  }

  lemma {:induction false} StepKeepsInv(m: Machine, step: Step)
    requires Inv(m) && Enabled(m, step)
    ensures Inv(Next(m, step))
  {
    var m' := Next(m, step);
    forall t | t in m'.threads ensures ThreadOk(m', t) {
      assert CpuOk(m, step.c);
      StepThread(m, step, t);
    }
    forall c | c in m'.cpus ensures CpuOk(m', c) {
      assert CpuOk(m, step.c) && ThreadOk(m, m.cpus[step.c].current);
      StepCpu(m, step, c);
    }
  }

  ghost predicate Initially(m: Machine) {
    && (forall t | t in m.threads :: m.threads[t].section == Outside && !m.threads[t].lockSched)
    && (forall c | c in m.cpus :: CpuOk(m, c) && m.cpus[c].lock == Free && m.cpus[c].handler == Inactive)
  }

  ghost predicate IsRun(ms: seq<Machine>, steps: seq<Step>) {
    && |ms| == |steps| + 1
    && forall i | 0 <= i < |steps| :: Enabled(ms[i], steps[i]) && ms[i + 1] == Next(ms[i], steps[i])
  }

  lemma {:induction false} InvOverRuns(ms: seq<Machine>, steps: seq<Step>, i: nat)
    requires IsRun(ms, steps) && Initially(ms[0]) && i < |ms|
    ensures Inv(ms[i])
  {
    if i > 0 {
      InvOverRuns(ms, steps, i - 1);
      StepKeepsInv(ms[i - 1], steps[i - 1]);
    }
  }

  // No self-deadlock: in every reachable state, a handler that goes for a
  // scheduler lock has interrupted a thread that holds no scheduler lock and wants
  // none.
  lemma NoSelfDeadlock(ms: seq<Machine>, steps: seq<Step>, i: nat, c: Id)
    requires IsRun(ms, steps) && Initially(ms[0]) && i < |ms|
    requires c in ms[i].cpus && ms[i].cpus[c].handler != Inactive
    ensures var t := ms[i].cpus[c].current;
      && t in ms[i].threads && ms[i].threads[t].section == Outside
      && forall d | d in ms[i].cpus :: ms[i].cpus[d].lock != ByThread(t)
  {
    InvOverRuns(ms, steps, i);
    var m := ms[i];
    var t := m.cpus[c].current;
    assert CpuOk(m, c) && ThreadOk(m, t);
    forall d | d in m.cpus ensures m.cpus[d].lock != ByThread(t) {
      assert CpuOk(m, d);
    }
  }

  // A preemption event goes for the lock exactly when the thread it interrupts is
  // outside its section and preemptible; otherwise it changes nothing.
  lemma InterruptIff(m: Machine, c: Id)
    requires Inv(m) && Enabled(m, Interrupt(c))
    ensures var th, m' := m.threads[m.cpus[c].current], Next(m, Interrupt(c));
      && (m'.cpus[c].handler == Spinning <==> th.section == Outside && th.nonpreempt == 0)
      && (m'.cpus[c].handler != Spinning ==> m' == m)
  {
    assert ThreadOk(m, m.cpus[c].current);
  }

  // A thread is only ever switched away outside its section and preemptible, so a
  // thread inside its section, or counting as not preemptible, keeps its CPU.
  lemma {:induction false} KeepsItsCpu(ms: seq<Machine>, steps: seq<Step>, i: nat, c: Id)
    requires IsRun(ms, steps) && Initially(ms[0]) && i < |steps| && c in ms[i].cpus
    requires var th := ms[i].threads[ms[i].cpus[c].current]; th.section != Outside || th.nonpreempt > 0
    ensures c in ms[i + 1].cpus && ms[i + 1].cpus[c].current == ms[i].cpus[c].current
  {
    InvOverRuns(ms, steps, i);
    assert CpuOk(ms[i], c) && ThreadOk(ms[i], ms[i].cpus[c].current);
  }

  // A held scheduler lock can always be released by its holder's next step:
  // nobody ever waits for a lock whose holder was switched away or interrupted.
  lemma HolderCanRelease(ms: seq<Machine>, steps: seq<Step>, i: nat, c: Id)
    requires IsRun(ms, steps) && Initially(ms[0]) && i < |ms|
    requires c in ms[i].cpus && ms[i].cpus[c].lock != Free
    ensures exists step :: Enabled(ms[i], step) && c in Next(ms[i], step).cpus && Next(ms[i], step).cpus[c].lock == Free
  {
    InvOverRuns(ms, steps, i);
    var m := ms[i];
    assert CpuOk(m, c);
    var step;
    if m.cpus[c].lock.ByThread? {
      var t := m.cpus[c].lock.t;
      assert ThreadOk(m, t);
      step := Unlock(m.threads[t].section.at);
    } else {
      step := HandlerSwitch(c, m.cpus[c].current);
    }
    assert Typed(m) by {
      forall d | d in m.cpus ensures m.cpus[d].current in m.threads { assert CpuOk(m, d); }
    }
    assert Enabled(m, step);
    assert Next(m, step).cpus[c].lock == Free;
  }
}
