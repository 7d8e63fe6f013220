// The shared/exclusive/drainable lock (system/kern/kern_lock.c) and its wait
// queue (system/kern/kern_wait.c).
//
// The spinlock makes every stretch of code from its acquisition to its next
// release one atomic section; waitqueue_wait releases it and takes it again once
// the thread has been removed from the queue.  Any number of threads interleave
// their sections in any order.
//
// The queue is the ring from `next` to `prev`: waitqueue_get_first takes the last
// element, after=1 inserts at the front, after=0 at the back.
module SharedLock {
  import opened Basics
  import Ring
  import WaitQueue

  datatype Kind = Shared | Exclusive

  datatype Op = Lock(kind: Kind) | Greedy(kind: Kind) | Unlock(kind: Kind) | Drain | Touch(kind: Kind)

  // The calls of waitqueue_wait a thread can be in.
  datatype Point =
    | Fair(kind: Kind)         // sl_lock, queueing for fairness
    | Acquire(kind: Kind)      // the loops of sl_lock_internal
    | DrainHolders             // first loop of sl_drain
    | DrainQueue               // second loop of sl_drain
    | Touching(kind: Kind)     // the loops of sl_touch

  datatype Lock = LockState(number: int, drain: bool, queue: seq<Tid>)

  datatype Outcome = Sleeps(at: Point) | Acquired(kind: Kind) | Refused | Done

  // What a section does: the new lock, the thread it woke, and how it ended.
  datatype Section = Section(lock: Lock, woken: Option<Tid>, outcome: Outcome)

  /////////////// The sections, on values ///////////////

  function First(l: Lock): Option<Tid> {
    if l.queue == [] then None else Some(l.queue[|l.queue| - 1])
  }

  // waitqueue_get_first
  function GetFirst(l: Lock, outcome: Outcome): Section {
    if l.queue == [] then Section(l, None, outcome)
    else Section(l.(queue := l.queue[..|l.queue| - 1]), First(l), outcome)
  }

  // waitqueue_wait up to the release of the spinlock
  function Sleep(l: Lock, t: Tid, at: Point, after: bool): Section {
    Section(l.(queue := if after then [t] + l.queue else l.queue + [t]), None, Sleeps(at))
  }

  // Must a thread of this kind wait?
  predicate Busy(l: Lock, kind: Kind) {
    if kind.Shared? then l.number < 0 else l.number != 0
  }

  function AcquireLoop(l: Lock, t: Tid, kind: Kind): Section {
    if Busy(l, kind) then Sleep(l, t, Acquire(kind), false)
    else match kind
      case Shared => GetFirst(l.(number := l.number + 1), Acquired(Shared))
      case Exclusive => Section(l.(number := -1), None, Acquired(Exclusive))
  }

  function Internal(l: Lock, t: Tid, kind: Kind): Section {
    if l.drain then Section(l, None, Refused) else AcquireLoop(l, t, kind)
  }

  function DrainLoops(l: Lock, t: Tid, second: bool): Section {
    if !second && l.number != 0 then Sleep(l, t, DrainHolders, true)
    else if l.queue != [] then Sleep(l, t, DrainQueue, true)
    else Section(l, None, Done)
  }

  function TouchLoop(l: Lock, t: Tid, kind: Kind): Section {
    if Busy(l, kind) then Sleep(l, t, Touching(kind), false) else GetFirst(l, Done)
  }

  function Begin(l: Lock, t: Tid, op: Op): Section {
    match op
    case Lock(kind) =>
      if l.drain then Section(l, None, Refused)
      else if l.queue != [] then Sleep(l, t, Fair(kind), true)
      else Internal(l, t, kind)
    case Greedy(kind) => Internal(l, t, kind)
    case Unlock(kind) => GetFirst(l.(number := if kind.Shared? then l.number - 1 else 0), Done)
    case Drain =>
      var first := GetFirst(l.(drain := true), Done);
      DrainLoops(first.lock, t, false).(woken := first.woken)
    case Touch(kind) => TouchLoop(l, t, kind)
  }

  function Again(l: Lock, t: Tid, at: Point): Section {
    match at
    case Fair(kind) => Internal(l, t, kind)
    case Acquire(kind) => if l.drain then GetFirst(l, Refused) else AcquireLoop(l, t, kind)
    case DrainHolders => DrainLoops(l, t, false)
    case DrainQueue => DrainLoops(l, t, true)
    case Touching(kind) => TouchLoop(l, t, kind)
  }

  /////////////// The sections, in place ///////////////

  // The lock, with its wait queue as a ring of the entries of threads.
  class SharedLock {
    var number: int
    var drain: bool
    const queue: WaitQueue.WaitQueue
    const entries: map<Tid, Ring.Link>    // t_wait_entry of each thread

    ghost function Links(): set<Ring.Link> {
      {queue.head} + entries.Values
    }

    // The ring is made of the entries of the waiting threads, and every thread has
    // an entry of its own.
    ghost predicate Valid()
      reads this, queue, queue.cycle
    {
      && queue.Valid() && queue.head !in entries.Values
      && OwnEntries(entries)
      && (forall i | 0 <= i < |queue.threads| ::
            queue.threads[i] in entries && queue.cycle[i + 1] == entries[queue.threads[i]])
    }

    ghost function View(): Lock
      reads this, queue
    {
      LockState(number, drain, queue.threads)
    }

    // The thread runs, so it waits nowhere.
    ghost predicate Runs(t: Tid)
      reads this, queue
    {
      t in entries && t !in queue.threads
    }

    constructor (entries: map<Tid, Ring.Link>)
      requires OwnEntries(entries)
      ensures Valid() && View() == LockState(0, false, []) && this.entries == entries
    {
      number, drain, this.entries := 0, false, entries;
      queue := new WaitQueue.WaitQueue();
    }

    lemma InLinks()
      requires Valid()
      ensures forall l | l in queue.cycle :: l in Links()
      ensures forall t | Runs(t) :: entries[t] !in queue.cycle
    {
      forall l | l in queue.cycle ensures l in Links() && forall t | Runs(t) :: entries[t] != l {
        var i :| 0 <= i < |queue.cycle| && queue.cycle[i] == l;
        assert i > 0 ==> queue.cycle[i - 1 + 1] == entries[queue.threads[i - 1]] && queue.threads[i - 1] in queue.threads;
      }
    }

    // waitqueue_get_first
    method WakeFirst() returns (woken: Option<Tid>)
      requires Valid()
      modifies queue, Links()
      ensures Valid() && GetFirst(old(View()), Done) == Section(View(), woken, Done)
    {
      InLinks();
      woken := queue.GetFirst();
    }

    // waitqueue_wait up to the release of the spinlock
    method Wait(t: Tid, after: bool)
      requires Valid() && Runs(t)
      modifies queue, Links()
      ensures Valid()
      ensures View() == old(View()).(queue := if after then [t] + old(View()).queue else old(View()).queue + [t])
    {
      InLinks();
      queue.Enter(entries[t], t, after);
    }

    // The body of the two wait loops of sl_lock_internal, from the loop test on.
    method TryAcquire(t: Tid, kind: Kind) returns (woken: Option<Tid>, outcome: Outcome)
      requires Valid() && Runs(t)
      modifies this, queue, Links()
      ensures Valid() && Section(View(), woken, outcome) == AcquireLoop(old(View()), t, kind)
    {
      woken := None;
      match kind {
        case Shared =>
          if number < 0 {
            Wait(t, false);
            outcome := Sleeps(Acquire(kind));
          } else {
            number := number + 1;
            woken := WakeFirst();
            outcome := Acquired(kind);
          }
        case Exclusive =>
          if number != 0 {
            Wait(t, false);
            outcome := Sleeps(Acquire(kind));
          } else {
            number := -1;
            outcome := Acquired(kind);
          }
      }
    }

    method LockInternal(t: Tid, kind: Kind) returns (woken: Option<Tid>, outcome: Outcome)
      requires Valid() && Runs(t)
      modifies this, queue, Links()
      ensures Valid() && Section(View(), woken, outcome) == Internal(old(View()), t, kind)
    {
      if drain {
        return None, Refused;
      }
      woken, outcome := TryAcquire(t, kind);
    }

    method DrainFrom(t: Tid, second: bool) returns (outcome: Outcome)
      requires Valid() && Runs(t)
      modifies this, queue, Links()
      ensures Valid() && Section(View(), None, outcome) == DrainLoops(old(View()), t, second)
    {
      if !second && number != 0 {
        Wait(t, true);
        return Sleeps(DrainHolders);
      }
      var empty := queue.IsEmpty();
      if !empty {
        Wait(t, true);
        return Sleeps(DrainQueue);
      }
      outcome := Done;
    }

    method TouchFrom(t: Tid, kind: Kind) returns (woken: Option<Tid>, outcome: Outcome)
      requires Valid() && Runs(t)
      modifies this, queue, Links()
      ensures Valid() && Section(View(), woken, outcome) == TouchLoop(old(View()), t, kind)
    {
      var busy := if kind.Shared? then number < 0 else number != 0;
      if busy {
        Wait(t, false);
        return None, Sleeps(Touching(kind));
      }
      woken := WakeFirst();
      outcome := Done;
    }

    // The first section of each operation.
    method Enter(t: Tid, op: Op) returns (woken: Option<Tid>, outcome: Outcome)
      requires Valid() && Runs(t)
      modifies this, queue, Links()
      ensures Valid() && Section(View(), woken, outcome) == Begin(old(View()), t, op)
    {
      hide AcquireLoop;
      woken, outcome := None, Done;
      match op {
        case Lock(kind) =>
          if drain {
            return None, Refused;
          }
          var empty := queue.IsEmpty();
          if !empty {
            Wait(t, true);
            return None, Sleeps(Fair(kind));
          }
          woken, outcome := LockInternal(t, kind);
        case Greedy(kind) =>
          woken, outcome := LockInternal(t, kind);
        case Unlock(kind) =>
          number := if kind.Shared? then number - 1 else 0;
          woken := WakeFirst();
        case Drain =>
          drain := true;
          woken := WakeFirst();
          outcome := DrainFrom(t, false);
        case Touch(kind) =>
          woken, outcome := TouchFrom(t, kind);
      }
    }

    // The section that follows the return of waitqueue_wait.
    method Reenter(t: Tid, at: Point) returns (woken: Option<Tid>, outcome: Outcome)
      requires Valid() && Runs(t)
      modifies this, queue, Links()
      ensures Valid() && Section(View(), woken, outcome) == Again(old(View()), t, at)
    {
      hide AcquireLoop;
      woken, outcome := None, Done;
      match at {
        case Fair(kind) =>
          woken, outcome := LockInternal(t, kind);
        case Acquire(kind) =>
          if drain {
            woken := WakeFirst();
            outcome := Refused;
          } else {
            woken, outcome := TryAcquire(t, kind);
          }
        case DrainHolders =>
          outcome := DrainFrom(t, false);
        case DrainQueue =>
          outcome := DrainFrom(t, true);
        case Touching(kind) =>
          woken, outcome := TouchFrom(t, kind);
      }
    }
  }

  // No entry belongs to two threads.
  ghost predicate OwnEntries(entries: map<Tid, Ring.Link>) {
    forall t, u | t in entries && u in entries && entries[t] == entries[u] :: t == u
  }

  /////////////// The protocol ///////////////

  datatype Phase =
    | Out
    | Asleep(at: Point)    // on the queue
    | Woken(at: Point)     // dequeued, its check not yet re-run

  // `shared` and `exclusive` record who holds the lock how often; `drained` says
  // that some sl_drain has returned.
  datatype Machine = Machine(
    l: Lock,
    shared: multiset<Tid>,
    exclusive: multiset<Tid>,
    phase: map<Tid, Phase>,
    drained: bool)

  datatype Step = Start(t: Tid, op: Op) | Resume(t: Tid)

  // Threads release only what they hold.
  predicate Enabled(m: Machine, step: Step) {
    && step.t in m.phase
    && match step
      case Start(t, op) =>
        m.phase[t].Out? && (op.Unlock? ==> t in (if op.kind.Shared? then m.shared else m.exclusive))
      case Resume(t) => m.phase[t].Woken?
  }

  function Taken(m: Machine, step: Step): Section
    requires Enabled(m, step)
  {
    match step
    case Start(t, op) => Begin(m.l, t, op)
    case Resume(t) => Again(m.l, t, m.phase[t].at)
  }

  function Released(step: Step): Option<Kind> {
    if step.Start? && step.op.Unlock? then Some(step.op.kind) else None
  }

  predicate IsDrain(m: Machine, step: Step)
    requires Enabled(m, step)
  {
    match step
    case Start(_, op) => op.Drain?
    case Resume(t) => m.phase[t].at.DrainHolders? || m.phase[t].at.DrainQueue?
  }

  function Holders(held: multiset<Tid>, t: Tid, kind: Kind, released: Option<Kind>, outcome: Outcome): multiset<Tid> {
    if released == Some(kind) then held - multiset{t}
    else if outcome == Acquired(kind) then held + multiset{t}
    else held
  }

  function Wakened(phase: map<Tid, Phase>, woken: Option<Tid>): map<Tid, Phase> {
    if woken.Some? && woken.value in phase && phase[woken.value].Asleep?
    then phase[woken.value := Woken(phase[woken.value].at)] else phase
  }

  // The machine after thread `t` went through the section `r`.
  function Advance(m: Machine, t: Tid, r: Section, released: Option<Kind>, draining: bool): Machine {
    Machine(r.lock,
            Holders(m.shared, t, Shared, released, r.outcome),
            Holders(m.exclusive, t, Exclusive, released, r.outcome),
            Wakened(m.phase, r.woken)[t := if r.outcome.Sleeps? then Asleep(r.outcome.at) else Out],
            m.drained || (draining && r.outcome.Done?))
  }

  function Next(m: Machine, step: Step): Machine
    requires Enabled(m, step)
  {
    Advance(m, step.t, Taken(m, step), Released(step), IsDrain(m, step))
  }

  // The lock and its queue agree with the threads.
  ghost predicate QueueOk(m: Machine) {
    && Distinct(m.l.queue)
    && (forall t | t in m.l.queue :: t in m.phase && m.phase[t].Asleep?)
    && (forall t | t in m.phase && m.phase[t].Asleep? :: t in m.l.queue)
  }

  ghost predicate Distinct(q: seq<Tid>) {
    forall i, j | 0 <= i < j < |q| :: q[i] != q[j]
  }

  // Exactly one exclusive and no shared holder, or exactly `number` shared
  // holders and no exclusive one.
  ghost predicate Exclusion(m: Machine) {
    || (m.l.number == -1 && |m.exclusive| == 1 && |m.shared| == 0)
    || (m.l.number >= 0 && |m.exclusive| == 0 && |m.shared| == m.l.number)
  }

  ghost predicate OnTheWay(m: Machine) {
    exists t :: t in m.phase && m.phase[t].Woken?
  }

  // Nobody sleeps on a free lock with nobody on the way.
  ghost predicate NoLostWakeup(m: Machine) {
    m.l.number == 0 && m.l.queue != [] ==> OnTheWay(m)
  }

  ghost predicate DrainOk(m: Machine) {
    && (forall t | t in m.phase && !m.phase[t].Out? && m.phase[t].at.DrainHolders? :: m.l.drain)
    && (forall t | t in m.phase && !m.phase[t].Out? && m.phase[t].at.DrainQueue? :: m.l.drain && m.l.number == 0)
    && (m.drained ==> m.l.drain && m.l.number == 0 && m.l.queue == [])
  }

  ghost predicate Inv(m: Machine) {
    && QueueOk(m)
    && Exclusion(m)
    && DrainOk(m)
    && (!m.l.drain ==> NoLostWakeup(m))
  }

  // What every section does to the queue: it may pop the last thread, and then
  // its own thread may enter at one end.
  ghost predicate QueueMoves(q: seq<Tid>, t: Tid, r: Section) {
    && (r.woken.Some? ==> q != [] && r.woken == Some(q[|q| - 1]))
    && var rest := if r.woken.Some? then q[..|q| - 1] else q;
      if r.outcome.Sleeps? then r.lock.queue == [t] + rest || r.lock.queue == rest + [t] else r.lock.queue == rest
  }

  // What every section does to the number and the drain flag.
  ghost predicate NumberMoves(l: Lock, r: Section, released: Option<Kind>) {
    && (match r.outcome
        case Acquired(Shared) => l.number >= 0 && r.lock.number == l.number + 1
        case Acquired(Exclusive) => l.number == 0 && r.lock.number == -1
        case _ =>
          r.lock.number == match released
            case None => l.number
            case Some(Shared) => l.number - 1
            case Some(Exclusive) => 0)
    && (r.outcome.Acquired? ==> released.None? && !r.lock.drain)
    && (l.drain ==> r.lock.drain)
  }

  lemma BeginMoves(l: Lock, t: Tid, op: Op)
    ensures QueueMoves(l.queue, t, Begin(l, t, op))
    ensures NumberMoves(l, Begin(l, t, op), Released(Start(t, op)))
  {
  }

  lemma AgainMoves(l: Lock, t: Tid, at: Point)
    ensures QueueMoves(l.queue, t, Again(l, t, at))
    ensures NumberMoves(l, Again(l, t, at), None)
  {
  }

  lemma {:induction false} SectionMoves(m: Machine, step: Step)
    requires Enabled(m, step)
    ensures QueueMoves(m.l.queue, step.t, Taken(m, step))
    ensures NumberMoves(m.l, Taken(m, step), Released(step))
  {
    match step {
      case Start(t, op) => BeginMoves(m.l, t, op);
      case Resume(t) => AgainMoves(m.l, t, m.phase[t].at);
    }
  }

  // The queue after a section holds what was in it, less the thread that was
  // woken, plus the thread itself if it went to sleep.
  lemma QueueContents(q: seq<Tid>, t: Tid, r: Section)
    requires Distinct(q) && t !in q && QueueMoves(q, t, r)
    ensures Distinct(r.lock.queue)
    ensures forall u :: u in r.lock.queue <==> (u in q && r.woken != Some(u)) || (u == t && r.outcome.Sleeps?)
  {
    var rest := if r.woken.Some? then q[..|q| - 1] else q;
    assert q == rest + (if r.woken.Some? then [r.woken.value] else []);
    assert forall u :: u in rest <==> u in q && r.woken != Some(u);
  }

  lemma QueueAdvance(m: Machine, t: Tid, r: Section, released: Option<Kind>, draining: bool)
    requires QueueOk(m) && t in m.phase && !m.phase[t].Asleep? && QueueMoves(m.l.queue, t, r)
    ensures var m' := Advance(m, t, r, released, draining);
      && QueueOk(m')
      && (forall u | u in m.phase && u != t :: m'.phase[u] ==
            if r.woken == Some(u) then Woken(m.phase[u].at) else m.phase[u])
      && (r.woken.Some? ==> r.woken.value in m.phase && r.woken.value != t && m.phase[r.woken.value].Asleep?)
  {
    QueueContents(m.l.queue, t, r);
    if r.woken.Some? {
      assert r.woken.value in m.l.queue;
    }
  }

  lemma {:induction false} ExclusionStep(m: Machine, step: Step)
    requires Exclusion(m) && Enabled(m, step)
    ensures Exclusion(Next(m, step))
  {
    SectionMoves(m, step);
    ExclusionAdvance(m, step.t, Taken(m, step), Released(step), IsDrain(m, step));
  }

  // One holder more or less.
  lemma HoldersCount(held: multiset<Tid>, t: Tid, kind: Kind, released: Option<Kind>, outcome: Outcome)
    requires released == Some(kind) ==> t in held
    ensures |Holders(held, t, kind, released, outcome)| ==
            |held| + (if released == Some(kind) then -1 else if outcome == Acquired(kind) then 1 else 0)
    ensures released == Some(kind) ==> |held| > 0
  {
    var held' := Holders(held, t, kind, released, outcome);
    if released == Some(kind) {
      assert held == held' + multiset{t};
    }
  }

  lemma ExclusionAdvance(m: Machine, t: Tid, r: Section, released: Option<Kind>, draining: bool)
    requires Exclusion(m) && NumberMoves(m.l, r, released)
    requires released.Some? ==> t in (if released.value.Shared? then m.shared else m.exclusive)
    ensures Exclusion(Advance(m, t, r, released, draining))
    ensures released.Some? ==> m.l.number != 0
  {
    HoldersCount(m.shared, t, Shared, released, r.outcome);
    HoldersCount(m.exclusive, t, Exclusive, released, r.outcome);
    hide Holders;
  }

  // What sections have to do with draining.
  lemma SectionDrains(m: Machine, step: Step)
    requires Enabled(m, step) && DrainOk(m)
    ensures var r := Taken(m, step);
      && (r.outcome == Sleeps(DrainHolders) ==> r.lock.drain)
      && (r.outcome == Sleeps(DrainQueue) ==> r.lock.drain && r.lock.number == 0)
      && (r.outcome.Done? && IsDrain(m, step) ==> r.lock.drain && r.lock.number == 0 && r.lock.queue == [])
      && (m.l.drain && m.l.number == 0 && m.l.queue == [] && Released(step).None? ==> r.lock.queue == [])
  {
  }

  lemma {:induction false} DrainStep(m: Machine, step: Step)
    requires QueueOk(m) && Exclusion(m) && DrainOk(m) && Enabled(m, step)
    ensures DrainOk(Next(m, step))
  {
    var r := Taken(m, step);
    SectionMoves(m, step);
    SectionDrains(m, step);
    ExclusionAdvance(m, step.t, r, Released(step), IsDrain(m, step));
    DrainAdvance(m, step.t, r, Released(step), IsDrain(m, step));
  }

  lemma DrainAdvance(m: Machine, t: Tid, r: Section, released: Option<Kind>, draining: bool)
    requires QueueOk(m) && DrainOk(m) && t in m.phase && !m.phase[t].Asleep?
    requires QueueMoves(m.l.queue, t, r) && NumberMoves(m.l, r, released)
    requires released.Some? ==> m.l.number != 0
    requires r.outcome == Sleeps(DrainHolders) ==> r.lock.drain
    requires r.outcome == Sleeps(DrainQueue) ==> r.lock.drain && r.lock.number == 0
    requires r.outcome.Done? && draining ==> r.lock.drain && r.lock.number == 0 && r.lock.queue == []
    requires m.l.drain && m.l.number == 0 && m.l.queue == [] && released.None? ==> r.lock.queue == []
    ensures DrainOk(Advance(m, t, r, released, draining))
  {
    QueueAdvance(m, t, r, released, draining);
  }

  // Before a drain, only a fair newcomer leaves a free lock and a sleeper behind
  // without waking somebody.
  lemma SectionWakes(m: Machine, step: Step)
    requires Enabled(m, step) && DrainOk(m)
    ensures var r := Taken(m, step);
      !r.lock.drain && r.lock.number == 0 && r.lock.queue != [] && r.woken.None? ==>
        m.l.number == 0 && m.l.queue != [] && m.phase[step.t].Out?
  {
  }

  lemma WakeupStep(m: Machine, step: Step)
    requires Inv(m) && Enabled(m, step) && !Next(m, step).l.drain
    ensures NoLostWakeup(Next(m, step))
  {
    SectionMoves(m, step);
    SectionWakes(m, step);
    WakeupAdvance(m, step.t, Taken(m, step), Released(step), IsDrain(m, step));
  }

  lemma WakeupAdvance(m: Machine, t: Tid, r: Section, released: Option<Kind>, draining: bool)
    requires QueueOk(m) && NoLostWakeup(m) && t in m.phase && !m.phase[t].Asleep? && QueueMoves(m.l.queue, t, r)
    requires r.lock.number == 0 && r.lock.queue != [] && r.woken.None? ==>
               m.l.number == 0 && m.l.queue != [] && m.phase[t].Out?
    ensures NoLostWakeup(Advance(m, t, r, released, draining))
  {
    QueueAdvance(m, t, r, released, draining);
    var m' := Advance(m, t, r, released, draining);
    if m'.l.number == 0 && m'.l.queue != [] {
      if r.woken.Some? {
        assert m'.phase[r.woken.value].Woken?;
      } else {
        var w :| w in m.phase && m.phase[w].Woken?;
        assert m'.phase[w].Woken?;
      }
    }
  }

  lemma {:induction false} StepKeepsInv(m: Machine, step: Step)
    requires Inv(m) && Enabled(m, step)
    ensures Inv(Next(m, step))
  {
    SectionMoves(m, step);
    QueueAdvance(m, step.t, Taken(m, step), Released(step), IsDrain(m, step));
    ExclusionStep(m, step);
    DrainStep(m, step);
    if !Next(m, step).l.drain {
      WakeupStep(m, step);
    }
  }

  /////////////// Whole runs ///////////////

  ghost predicate Initially(m: Machine) {
    && m.l == LockState(0, false, []) && m.shared == multiset{} && m.exclusive == multiset{} && !m.drained
    && forall t | t in m.phase :: m.phase[t].Out?
  }

  ghost predicate IsRun(ms: seq<Machine>, steps: seq<Step>) {
    && |ms| == |steps| + 1
    && forall i | 0 <= i < |steps| :: Enabled(ms[i], steps[i]) && ms[i + 1] == Next(ms[i], steps[i])
  }

  // Mutual exclusion, no lost wake-up before a drain, and the finality of drains
  // hold in every state of every run of any number of threads.
  lemma {:induction false} InvOverRuns(ms: seq<Machine>, steps: seq<Step>, i: nat)
    requires IsRun(ms, steps) && Initially(ms[0]) && i < |ms|
    ensures Inv(ms[i])
  {
    if i > 0 {
      InvOverRuns(ms, steps, i - 1);
      StepKeepsInv(ms[i - 1], steps[i - 1]);
    }
  }

  // Mutual exclusion.
  lemma MutualExclusion(ms: seq<Machine>, steps: seq<Step>, i: nat)
    requires IsRun(ms, steps) && Initially(ms[0]) && i < |ms|
    ensures ms[i].l.number < 0 ==> ms[i].l.number == -1 && |ms[i].exclusive| == 1 && |ms[i].shared| == 0
    ensures ms[i].l.number >= 0 ==> |ms[i].exclusive| == 0 && |ms[i].shared| == ms[i].l.number
  {
    InvOverRuns(ms, steps, i);
  }

  // No lost wake-up: before a drain, whenever the lock is free and somebody
  // sleeps on it, some thread has been dequeued and has not re-run its check yet.
  lemma NobodySleepsOnFreeLock(ms: seq<Machine>, steps: seq<Step>, i: nat)
    requires IsRun(ms, steps) && Initially(ms[0]) && i < |ms|
    requires !ms[i].l.drain && ms[i].l.number == 0
    requires exists t :: t in ms[i].phase && ms[i].phase[t].Asleep?
    ensures exists t :: t in ms[i].phase && ms[i].phase[t].Woken?
  {
    InvOverRuns(ms, steps, i);
    var t :| t in ms[i].phase && ms[i].phase[t].Asleep?;
    assert t in ms[i].l.queue;
  }

  /////////////// Who gets through ///////////////

  // May a thread of this kind join the holders?
  ghost predicate Compatible(m: Machine, kind: Kind) {
    m.exclusive == multiset{} && (kind.Exclusive? ==> m.shared == multiset{})
  }

  ghost predicate NobodyAsleep(m: Machine) {
    forall u | u in m.phase :: !m.phase[u].Asleep?
  }

  // Steps that try to get the lock without queueing for fairness first.
  ghost predicate Tries(m: Machine, step: Step, kind: Kind)
    requires Enabled(m, step)
  {
    match step
    case Start(_, op) => op == Greedy(kind) || (op == Lock(kind) && NobodyAsleep(m))
    case Resume(t) => m.phase[t].at == Fair(kind) || m.phase[t].at == Acquire(kind)
  }

  ghost function Holding(m: Machine, kind: Kind): multiset<Tid> {
    if kind.Shared? then m.shared else m.exclusive
  }

  ghost predicate SameHolders(m: Machine, m': Machine) {
    m'.shared == m.shared && m'.exclusive == m.exclusive
  }

  lemma NumberMeans(m: Machine, kind: Kind)
    requires Exclusion(m)
    ensures Busy(m.l, kind) <==> !Compatible(m, kind)
    ensures m.l.number == 0 <==> m.shared == multiset{} && m.exclusive == multiset{}
  {
    assert |m.shared| == 0 <==> m.shared == multiset{};
    assert |m.exclusive| == 0 <==> m.exclusive == multiset{};
  }

  lemma AsleepMeans(m: Machine)
    requires QueueOk(m)
    ensures NobodyAsleep(m) <==> m.l.queue == []
  {
    if m.l.queue != [] {
      assert m.l.queue[0] in m.l.queue;
    }
  }

  // What an attempt comes to, by the lock alone.
  lemma {:induction false} Attempt(m: Machine, step: Step, kind: Kind)
    requires Enabled(m, step) && Tries(m, step, kind) && (NobodyAsleep(m) <==> m.l.queue == [])
    ensures var r := Taken(m, step);
      && Released(step) == None
      && r.outcome == (if m.l.drain then Refused else if Busy(m.l, kind) then Sleeps(Acquire(kind)) else Acquired(kind))
      && (r.outcome.Sleeps? ==> r.lock.queue == m.l.queue + [step.t])
  {
    hide NobodyAsleep;
  }

  // An attempt succeeds exactly when the lock is not draining and the holders are
  // compatible.  It is refused exactly when the lock is draining; otherwise the
  // thread sleeps as the next one to be woken.
  lemma {:induction false} AcquiresIff(m: Machine, step: Step, kind: Kind)
    requires Inv(m) && Enabled(m, step) && Tries(m, step, kind)
    ensures var m', t := Next(m, step), step.t;
      if m.l.drain then m'.phase[t].Out? && SameHolders(m, m')
      else if Compatible(m, kind) then
        && m'.phase[t].Out? && Holding(m', kind) == Holding(m, kind) + multiset{t}
        && (kind.Shared? ==> m'.exclusive == m.exclusive) && (kind.Exclusive? ==> m'.shared == m.shared)
      else
        m'.phase[t] == Asleep(Acquire(kind)) && SameHolders(m, m') && m'.l.queue == m.l.queue + [t]
  {
    NumberMeans(m, kind);
    AsleepMeans(m);
    Attempt(m, step, kind);
    hide Taken;
    hide Tries;
    hide Inv;
    hide Compatible;
  }

  // ... in every state of every run.
  lemma AcquiresOverRuns(ms: seq<Machine>, steps: seq<Step>, i: nat, kind: Kind)
    requires IsRun(ms, steps) && Initially(ms[0]) && i < |steps| && Tries(ms[i], steps[i], kind)
    ensures Holding(ms[i + 1], kind) == Holding(ms[i], kind) + multiset{steps[i].t} <==>
            !ms[i].l.drain && Compatible(ms[i], kind)
  {
    InvOverRuns(ms, steps, i);
    AcquiresIff(ms[i], steps[i], kind);
    var held, t := Holding(ms[i], kind), steps[i].t;
    assert (held + multiset{t})[t] == held[t] + 1;
  }

  // A touch returns exactly when the holders are compatible with its kind, whether
  // the lock is draining or not, and never becomes a holder.
  lemma {:induction false} TouchReturnsIff(m: Machine, step: Step, kind: Kind)
    requires Inv(m) && Enabled(m, step)
    requires match step case Start(_, op) => op == Touch(kind) case Resume(t) => m.phase[t].at == Touching(kind)
    ensures var m', t := Next(m, step), step.t;
      && SameHolders(m, m')
      && if Compatible(m, kind) then m'.phase[t].Out?
         else m'.phase[t] == Asleep(Touching(kind)) && m'.l.queue == m.l.queue + [t]
  {
    NumberMeans(m, kind);
    hide QueueOk;
    hide Exclusion;
    hide DrainOk;
    hide NoLostWakeup;
    hide Compatible;
  }

  // A step of a drain returns exactly when nobody holds the lock and nobody else
  // sleeps; otherwise the drainer sleeps behind everybody.
  lemma {:induction false} DrainReturnsIff(m: Machine, step: Step)
    requires Inv(m) && Enabled(m, step) && IsDrain(m, step)
    ensures var m', t := Next(m, step), step.t;
      && m'.l.drain && SameHolders(m, m')
      && (m'.phase[t].Out? <==>
            m'.shared == multiset{} && m'.exclusive == multiset{} && forall u | u in m'.phase && u != t :: !m'.phase[u].Asleep?)
      && (!m'.phase[t].Out? ==> m'.phase[t].Asleep? && m'.l.queue != [] && m'.l.queue[0] == t)
  {
    NumberMeans(m, Exclusive);
    StepKeepsInv(m, step);
    var m', t := Next(m, step), step.t;
    DrainSection(m, step);
    hide Taken;
    hide Exclusion;
    hide NoLostWakeup;
    if m'.phase[t].Out? {
      forall u | u in m'.phase && u != t ensures !m'.phase[u].Asleep? {
        assert u !in m'.l.queue;
      }
    } else if m'.shared == multiset{} && m'.exclusive == multiset{} {
      var u := m'.l.queue[1];
      assert u in m'.l.queue && u != t;
    }
  }

  lemma DrainSection(m: Machine, step: Step)
    requires Enabled(m, step) && IsDrain(m, step) && DrainOk(m)
    ensures var r := Taken(m, step);
      && r.lock.drain && r.lock.number == m.l.number && !r.outcome.Acquired?
      && (r.outcome.Sleeps? ==> r.lock.queue != [] && r.lock.queue[0] == step.t)
      && (r.outcome.Sleeps? && m.l.number == 0 ==> |r.lock.queue| >= 2)
      && (!r.outcome.Sleeps? ==> r.lock.queue == [] && m.l.number == 0)
  {
  }

  // The drain flag is set by the first sl_drain, and by nothing else.
  lemma {:induction false} DrainFlagIff(m: Machine, step: Step)
    requires Enabled(m, step)
    ensures Next(m, step).l.drain <==> m.l.drain || (step.Start? && step.op.Drain?)
  {
  }

  // Which steps hand a wake-up on: a shared acquisition, a release, the start of a
  // drain, the end of a touch, and an attempt that is refused after it slept.
  ghost predicate HandsOn(m: Machine, step: Step)
    requires Enabled(m, step)
  {
    match step
    case Start(_, op) =>
      match op {
        case Lock(kind) => !m.l.drain && kind.Shared? && NobodyAsleep(m) && Compatible(m, kind)
        case Greedy(kind) => !m.l.drain && kind.Shared? && Compatible(m, kind)
        case Touch(kind) => Compatible(m, kind)
        case _ => true
      }
    case Resume(t) =>
      match m.phase[t].at {
        case Fair(kind) => !m.l.drain && kind.Shared? && Compatible(m, kind)
        case Acquire(kind) => m.l.drain || (kind.Shared? && Compatible(m, kind))
        case Touching(kind) => Compatible(m, kind)
        case _ => false
      }
  }

  lemma {:induction false} WokenBy(m: Machine, step: Step)
    requires Enabled(m, step) && (NobodyAsleep(m) <==> m.l.queue == [])
    requires (Busy(m.l, Shared) <==> !Compatible(m, Shared)) && (Busy(m.l, Exclusive) <==> !Compatible(m, Exclusive))
    ensures var q := m.l.queue;
      Taken(m, step).woken == if HandsOn(m, step) && q != [] then Some(q[|q| - 1]) else None
  {
    hide Compatible;
    hide NobodyAsleep;
    if step.Start? {
      assert HandsOn(m, step) || Begin(m.l, step.t, step.op).woken.None?;
    }
  }

  // They wake the thread at the end of the queue, if anybody sleeps; no other step
  // wakes anybody.
  lemma {:induction false} WakesIff(m: Machine, step: Step)
    requires Inv(m) && Enabled(m, step)
    ensures var q := m.l.queue;
      Taken(m, step).woken == if HandsOn(m, step) && q != [] then Some(q[|q| - 1]) else None
    ensures var q, m' := m.l.queue, Next(m, step);
      forall u | u in m.phase && m.phase[u].Asleep? ::
        m'.phase[u].Woken? <==> HandsOn(m, step) && q != [] && u == q[|q| - 1]
  {
    NumberMeans(m, Shared);
    NumberMeans(m, Exclusive);
    AsleepMeans(m);
    SectionMoves(m, step);
    QueueAdvance(m, step.t, Taken(m, step), Released(step), IsDrain(m, step));
    hide Compatible;
    hide NobodyAsleep;
    WokenBy(m, step);
    hide HandsOn;
    hide Taken;
    hide IsDrain;
  }

  /////////////// Fairness ///////////////

  // Both threads sleep, and `t` is nearer to being woken than `u`.
  ghost predicate AheadOf(m: Machine, t: Tid, u: Tid) {
    exists i, j :: 0 <= i < j < |m.l.queue| && m.l.queue[i] == u && m.l.queue[j] == t
  }

  lemma AheadAdvance(m: Machine, s: Tid, r: Section, released: Option<Kind>, draining: bool, t: Tid, u: Tid)
    requires QueueOk(m) && s in m.phase && !m.phase[s].Asleep? && QueueMoves(m.l.queue, s, r) && AheadOf(m, t, u)
    ensures r.woken != Some(u)
    ensures r.woken == Some(t) || AheadOf(Advance(m, s, r, released, draining), t, u)
  {
    var q := m.l.queue;
    var i, j :| 0 <= i < j < |q| && q[i] == u && q[j] == t;
    var rest := if r.woken.Some? then q[..|q| - 1] else q;
    if r.woken != Some(t) {
      assert j < |rest| && rest[i] == u && rest[j] == t;
      var q' := r.lock.queue;
      var d := if q' == [s] + rest then 1 else 0;
      assert q'[i + d] == u && q'[j + d] == t;
    }
  }

  // First come, first woken: while `t` sleeps ahead of `u`, `u` is not woken, and
  // `t` stays ahead, whoever else comes and goes.
  lemma {:induction false} FirstComeFirstWoken(ms: seq<Machine>, steps: seq<Step>, i: nat, j: nat, t: Tid, u: Tid)
    requires IsRun(ms, steps) && Initially(ms[0]) && i <= j < |ms| && AheadOf(ms[i], t, u)
    requires forall k | i <= k <= j :: t in ms[k].phase && ms[k].phase[t].Asleep?
    ensures AheadOf(ms[j], t, u)
    decreases j
  {
    hide Taken;
    if i < j {
      FirstComeFirstWoken(ms, steps, i, j - 1, t, u);
      var m, step := ms[j - 1], steps[j - 1];
      InvOverRuns(ms, steps, j - 1);
      SectionMoves(m, step);
      var r := Taken(m, step);
      AheadAdvance(m, step.t, r, Released(step), IsDrain(m, step), t, u);
      QueueAdvance(m, step.t, r, Released(step), IsDrain(m, step));
    }
  }

  // A thread that queues for fairness is behind everybody who sleeps already.
  lemma FairEntersLast(m: Machine, t: Tid, kind: Kind, u: Tid)
    requires QueueOk(m) && Enabled(m, Start(t, Lock(kind))) && u in m.phase && m.phase[u].Asleep? && !m.l.drain
    ensures AheadOf(Next(m, Start(t, Lock(kind))), u, t)
  {
    var q := m.l.queue;
    var j :| 0 <= j < |q| && q[j] == u;
    assert ([t] + q)[0] == t && ([t] + q)[j + 1] == u;
  }

  /////////////// Draining ///////////////

  // Once the drain flag is set it stays set, and nobody gets the lock any more:
  // holders only ever leave.
  lemma AdvanceAfterDrain(m: Machine, t: Tid, r: Section, released: Option<Kind>, draining: bool, m0: Machine)
    requires m.l.drain && NumberMoves(m.l, r, released)
    requires m.shared <= m0.shared && m.exclusive <= m0.exclusive
    ensures var m' := Advance(m, t, r, released, draining);
      m'.l.drain && m'.shared <= m0.shared && m'.exclusive <= m0.exclusive
  {
  }

  lemma StepAfterDrain(m: Machine, step: Step, m0: Machine)
    requires m.l.drain && Enabled(m, step)
    requires m.shared <= m0.shared && m.exclusive <= m0.exclusive
    ensures var m' := Next(m, step);
      m'.l.drain && m'.shared <= m0.shared && m'.exclusive <= m0.exclusive
  {
    SectionMoves(m, step);
    AdvanceAfterDrain(m, step.t, Taken(m, step), Released(step), IsDrain(m, step), m0);
  }

  lemma {:induction false} NoAcquisitionAfterDrain(ms: seq<Machine>, steps: seq<Step>, i: nat, j: nat)
    requires IsRun(ms, steps) && Initially(ms[0]) && i <= j < |ms| && ms[i].l.drain
    ensures ms[j].l.drain && ms[j].shared <= ms[i].shared && ms[j].exclusive <= ms[i].exclusive
    decreases j
  {
    hide Next;
    if i < j {
      NoAcquisitionAfterDrain(ms, steps, i, j - 1);
      StepAfterDrain(ms[j - 1], steps[j - 1], ms[i]);
    }
  }

  // A drain is final: from the moment an sl_drain returns, the lock is free and
  // its queue empty, in that state and in every later state of the run.
  lemma DrainIsFinal(ms: seq<Machine>, steps: seq<Step>, i: nat, j: nat)
    requires IsRun(ms, steps) && Initially(ms[0]) && i < j < |ms|
    requires IsDrain(ms[i], steps[i]) && Taken(ms[i], steps[i]).outcome.Done?
    ensures var m := ms[j];
      && m.l.drain && m.l.number == 0 && m.l.queue == []
      && m.shared == multiset{} && m.exclusive == multiset{}
  {
    InvOverRuns(ms, steps, j);
    DrainedStays(ms, steps, i + 1, j);
  }

  lemma {:induction false} DrainedStays(ms: seq<Machine>, steps: seq<Step>, i: nat, j: nat)
    requires IsRun(ms, steps) && i <= j < |ms| && ms[i].drained
    ensures ms[j].drained
    decreases j
  {
    if i < j {
      DrainedStays(ms, steps, i, j - 1);
    }
  }

  /////////////// Wake-ups during a drain ///////////////

  ghost predicate Draining(p: Phase) {
    !p.Out? && (p.at.DrainHolders? || p.at.DrainQueue?)
  }

  // A discipline under which wake-ups survive a drain: everybody acquires with
  // sl_lock_greedy, and nobody drains while another thread is draining.
  ghost predicate Gentle(m: Machine, step: Step) {
    step.Start? ==>
      && !step.op.Lock?
      && (step.op.Drain? ==> forall t | t in m.phase :: !Draining(m.phase[t]))
  }

  ghost predicate NobodyFair(m: Machine) {
    forall t | t in m.phase && !m.phase[t].Out? :: !m.phase[t].at.Fair?
  }

  ghost predicate OneDrainer(m: Machine) {
    forall t, u | t in m.phase && u in m.phase && Draining(m.phase[t]) && Draining(m.phase[u]) :: t == u
  }

  // Under the discipline a sleeping drainer is at the front of the queue, and a
  // thread other than a drainer is on the way whenever somebody sleeps on a free lock.
  ghost predicate GentleInv(m: Machine) {
    && Inv(m)
    && NobodyFair(m)
    && OneDrainer(m)
    && (forall i | 0 < i < |m.l.queue| :: !Draining(m.phase[m.l.queue[i]]))
    && (m.l.number == 0 && m.l.queue != [] ==>
          exists t :: t in m.phase && m.phase[t].Woken? && !Draining(m.phase[t]))
  }

  // What a section of a disciplined run can end in.
  lemma SectionGentle(m: Machine, step: Step)
    requires Enabled(m, step) && Gentle(m, step) && (step.Resume? ==> !m.phase[step.t].at.Fair?)
    ensures var r := Taken(m, step);
      && (r.outcome.Sleeps? ==> !r.outcome.at.Fair?)
      && (r.outcome.Sleeps? && (r.outcome.at.DrainHolders? || r.outcome.at.DrainQueue?) ==>
            IsDrain(m, step) && r.lock.queue != [] && r.lock.queue[0] == step.t)
      && (r.outcome.Sleeps? && !IsDrain(m, step) ==> r.woken.None? && r.lock.queue == m.l.queue + [step.t])
      && (r.lock.number == 0 && r.lock.queue != [] && r.woken.None? ==>
            m.l.number == 0 && m.l.queue != [] && (IsDrain(m, step) || m.phase[step.t].Out?))
  {
  }

  // Drainers stay at the front of the queue.
  lemma GentleQueue(m: Machine, t: Tid, r: Section, released: Option<Kind>, draining: bool)
    requires GentleInv(m) && t in m.phase && !m.phase[t].Asleep? && QueueMoves(m.l.queue, t, r)
    requires draining ==> forall u | u in m.phase && u != t :: !Draining(m.phase[u])
    requires r.outcome.Sleeps? && (r.outcome.at.DrainHolders? || r.outcome.at.DrainQueue?) ==>
               draining && r.lock.queue != [] && r.lock.queue[0] == t
    requires r.outcome.Sleeps? && !draining ==> r.woken.None? && r.lock.queue == m.l.queue + [t]
    ensures var m' := Advance(m, t, r, released, draining);
      forall i | 0 < i < |m'.l.queue| :: m'.l.queue[i] in m'.phase && !Draining(m'.phase[m'.l.queue[i]])
  {
    var m' := Advance(m, t, r, released, draining);
    var q, q' := m.l.queue, m'.l.queue;
    QueueAdvance(m, t, r, released, draining);
    var rest := if r.woken.Some? then q[..|q| - 1] else q;
    forall i | 0 < i < |q'| ensures q'[i] in m'.phase && !Draining(m'.phase[q'[i]]) {
      assert q'[i] in q';
      var u := q'[i];
      if u == t {
        assert q'[0] != t;
      } else if draining {
        assert !Draining(m.phase[u]);
      } else {
        assert u == q[i];
      }
    }
  }

  // At most one thread is draining, and nobody queues for fairness.
  lemma GentlePhases(m: Machine, t: Tid, r: Section, released: Option<Kind>, draining: bool)
    requires QueueOk(m) && OneDrainer(m) && NobodyFair(m)
    requires t in m.phase && !m.phase[t].Asleep? && QueueMoves(m.l.queue, t, r)
    requires draining ==> forall u | u in m.phase && u != t :: !Draining(m.phase[u])
    requires r.outcome.Sleeps? ==> !r.outcome.at.Fair?
    requires r.outcome.Sleeps? && (r.outcome.at.DrainHolders? || r.outcome.at.DrainQueue?) ==> draining
    ensures OneDrainer(Advance(m, t, r, released, draining)) && NobodyFair(Advance(m, t, r, released, draining))
  {
    var m' := Advance(m, t, r, released, draining);
    QueueAdvance(m, t, r, released, draining);
    forall u | u in m'.phase && !m'.phase[u].Out? ensures !m'.phase[u].at.Fair? {
      assert u != t ==> !m.phase[u].Out? && m'.phase[u].at == m.phase[u].at;
    }
    forall u, v | u in m'.phase && v in m'.phase && Draining(m'.phase[u]) && Draining(m'.phase[v]) ensures u == v {
      assert u != t ==> Draining(m.phase[u]);
      assert v != t ==> Draining(m.phase[v]);
    }
  }

  // Somebody other than a drainer is on the way.
  lemma GentleWakes(m: Machine, t: Tid, r: Section, released: Option<Kind>, draining: bool)
    requires GentleInv(m) && t in m.phase && !m.phase[t].Asleep? && QueueMoves(m.l.queue, t, r)
    requires r.lock.number == 0 && r.lock.queue != [] && r.woken.None? ==>
               m.l.number == 0 && m.l.queue != [] && (draining || m.phase[t].Out?)
    requires r.outcome.Sleeps? && !draining ==> r.woken.None?
    requires draining ==> forall u | u in m.phase && u != t :: !Draining(m.phase[u])
    requires draining && m.phase[t].Woken? ==> Draining(m.phase[t])
    ensures var m' := Advance(m, t, r, released, draining);
      m'.l.number == 0 && m'.l.queue != [] ==> exists u :: u in m'.phase && m'.phase[u].Woken? && !Draining(m'.phase[u])
  {
    hide Exclusion;
    hide DrainOk;
    hide NoLostWakeup;
    hide NobodyFair;
    hide OneDrainer;
    hide Holders;
    hide Distinct;
    var m' := Advance(m, t, r, released, draining);
    var q := m.l.queue;
    QueueAdvance(m, t, r, released, draining);
    if m'.l.number == 0 && m'.l.queue != [] {
      var w: Tid;
      if r.woken.Some? {
        w := r.woken.value;
        assert w == q[|q| - 1] && m'.phase[w] == Woken(m.phase[w].at);
        assert |q| == 1 ==> m'.l.queue == [] || draining;
        assert !Draining(m.phase[w]);
      } else {
        w :| w in m.phase && m.phase[w].Woken? && !Draining(m.phase[w]);
        assert m'.phase[w] == m.phase[w];
      }
      assert w in m'.phase && m'.phase[w].Woken? && !Draining(m'.phase[w]);
    }
  }

  lemma GentleAdvance(m: Machine, t: Tid, r: Section, released: Option<Kind>, draining: bool)
    requires GentleInv(m) && t in m.phase && !m.phase[t].Asleep? && QueueMoves(m.l.queue, t, r)
    requires draining ==> forall u | u in m.phase && u != t :: !Draining(m.phase[u])
    requires r.outcome.Sleeps? ==> !r.outcome.at.Fair?
    requires r.outcome.Sleeps? && (r.outcome.at.DrainHolders? || r.outcome.at.DrainQueue?) ==>
               draining && r.lock.queue != [] && r.lock.queue[0] == t
    requires r.outcome.Sleeps? && !draining ==> r.woken.None? && r.lock.queue == m.l.queue + [t]
    requires r.lock.number == 0 && r.lock.queue != [] && r.woken.None? ==>
               m.l.number == 0 && m.l.queue != [] && (draining || m.phase[t].Out?)
    requires draining && m.phase[t].Woken? ==> Draining(m.phase[t])
    requires Inv(Advance(m, t, r, released, draining))
    ensures GentleInv(Advance(m, t, r, released, draining))
  {
    QueueAdvance(m, t, r, released, draining);
    GentleQueue(m, t, r, released, draining);
    GentleWakes(m, t, r, released, draining);
    GentlePhases(m, t, r, released, draining);
  }

  lemma {:induction false} GentleStep(m: Machine, step: Step)
    requires GentleInv(m) && Enabled(m, step) && Gentle(m, step)
    ensures GentleInv(Next(m, step))
  {
    StepKeepsInv(m, step);
    SectionMoves(m, step);
    SectionGentle(m, step);
    GentleAdvance(m, step.t, Taken(m, step), Released(step), IsDrain(m, step));
  }

  // No lost wake-up at all, drain or not, in every run that keeps the discipline.
  lemma {:induction false} NoLostWakeupIfGentle(ms: seq<Machine>, steps: seq<Step>, i: nat)
    requires IsRun(ms, steps) && Initially(ms[0]) && i < |ms|
    requires forall k | 0 <= k < |steps| :: Gentle(ms[k], steps[k])
    ensures GentleInv(ms[i]) && NoLostWakeup(ms[i])
  {
    if i > 0 {
      NoLostWakeupIfGentle(ms, steps, i - 1);
      GentleStep(ms[i - 1], steps[i - 1]);
    }
  }

  /////////////// ... and without the discipline ///////////////

  // A drain that stalls: the lock is free and nobody holds it, but a drainer is
  // asleep and no thread is on the way to wake it.
  ghost predicate Stalled(m: Machine) {
    && m.l.drain && m.l.number == 0 && m.l.queue != [] && m.shared == multiset{} && m.exclusive == multiset{}
    && (exists t :: t in m.phase && m.phase[t].Asleep? && Draining(m.phase[t]))
    && forall t :: !Enabled(m, Resume(t))
  }

  function Fresh(): Machine {
    Machine(LockState(0, false, []), multiset{}, multiset{}, map[0 := Out, 1 := Out, 2 := Out, 3 := Out, 4 := Out], false)
  }

  lemma RunsJoin(ms: seq<Machine>, steps: seq<Step>, ms': seq<Machine>, steps': seq<Step>)
    requires IsRun(ms, steps) && IsRun(ms', steps') && ms[|steps|] == ms'[0]
    ensures IsRun(ms + ms'[1..], steps + steps') && (ms + ms'[1..])[|steps + steps'|] == ms'[|steps'|]
  {
    hide Next;
    hide Enabled;
    var all, path := ms + ms'[1..], steps + steps';
    forall i | 0 <= i < |path| ensures Enabled(all[i], path[i]) && all[i + 1] == Next(all[i], path[i]) {
      var j := i - |steps|;
      if j >= 0 {
        assert path[i] == steps'[j] && all[i] == ms'[j] && all[i + 1] == ms'[j + 1];
      }
    }
  }

  // Thread 0 holds the lock, 1 waits for it, 2 queues behind 1.
  function Queueing(): Machine {
    Machine(LockState(-1, false, [2, 1]), multiset{}, multiset{0},
            map[0 := Out, 1 := Asleep(Acquire(Exclusive)), 2 := Asleep(Fair(Exclusive)), 3 := Out, 4 := Out], false)
  }

  // ... 3 queues as well, 4 drains, which wakes 1.
  function MidDrain(): Machine {
    Machine(LockState(-1, true, [4, 3, 2]), multiset{}, multiset{0},
            map[0 := Out, 1 := Woken(Acquire(Exclusive)), 2 := Asleep(Fair(Exclusive)), 3 := Asleep(Fair(Exclusive)),
                4 := Asleep(DrainHolders)], false)
  }

  lemma ToQueueing() returns (ms: seq<Machine>, steps: seq<Step>)
    ensures IsRun(ms, steps) && ms[0] == Fresh() && ms[|steps|] == Queueing()
  {
    steps := [Start(0, Greedy(Exclusive)), Start(1, Greedy(Exclusive)), Start(2, Lock(Exclusive))];
    var m1 := Next(Fresh(), steps[0]);
    var m2 := Next(m1, steps[1]);
    ms := [Fresh(), m1, m2, Next(m2, steps[2])];
    assert Next(m2, steps[2]) == Queueing();
  }

  lemma ToMidDrain() returns (ms: seq<Machine>, steps: seq<Step>)
    ensures IsRun(ms, steps) && ms[0] == Queueing() && ms[|steps|] == MidDrain()
  {
    steps := [Start(3, Lock(Exclusive)), Start(4, Drain)];
    var m1 := Next(Queueing(), steps[0]);
    assert m1.l == LockState(-1, false, [3, 2, 1]);
    ms := [Queueing(), m1, Next(m1, steps[1])];
    assert Next(m1, steps[1]) == MidDrain();
  }

  // Threads 1 and 2 have given up; nobody passed the wake-up of 2 on.
  function Dropped(): Machine {
    Machine(LockState(-1, true, [4, 3]), multiset{}, multiset{0},
            map[0 := Out, 1 := Out, 2 := Out, 3 := Asleep(Fair(Exclusive)), 4 := Asleep(DrainHolders)], false)
  }

  lemma ToDropped() returns (ms: seq<Machine>, steps: seq<Step>)
    ensures IsRun(ms, steps) && ms[0] == MidDrain() && ms[|steps|] == Dropped()
  {
    steps := [Resume(1), Resume(2)];
    var m1 := Next(MidDrain(), steps[0]);
    assert m1.l == LockState(-1, true, [4, 3]);
    ms := [MidDrain(), m1, Next(m1, steps[1])];
    assert Next(m1, steps[1]) == Dropped();
  }

  lemma ToStalled() returns (ms: seq<Machine>, steps: seq<Step>)
    ensures IsRun(ms, steps) && ms[0] == Dropped() && Stalled(ms[|steps|])
  {
    steps := [Start(0, Unlock(Exclusive)), Resume(3)];
    var m1 := Next(Dropped(), steps[0]);
    assert m1.l == LockState(0, true, [4]);
    var m2 := Next(m1, steps[1]);
    ms := [Dropped(), m1, m2];
    assert m2.phase[4] == Asleep(DrainHolders);
  }

  // Two fair waiters swallow the wake-ups meant for the drainer.
  lemma FairWaitersStallDrain() returns (ms: seq<Machine>, steps: seq<Step>)
    ensures IsRun(ms, steps) && Initially(ms[0]) && Stalled(ms[|steps|])
  {
    hide Next;
    hide Enabled;
    ms, steps := ToQueueing();
    var ms1, steps1 := ToMidDrain();
    var ms2, steps2 := ToDropped();
    var ms3, steps3 := ToStalled();
    RunsJoin(ms, steps, ms1, steps1);
    ms, steps := ms + ms1[1..], steps + steps1;
    RunsJoin(ms, steps, ms2, steps2);
    ms, steps := ms + ms2[1..], steps + steps2;
    RunsJoin(ms, steps, ms3, steps3);
    ms, steps := ms + ms3[1..], steps + steps3;
  }

  // Thread 0 holds the lock; 1 and 2 drain.
  function BothDrain(): Machine {
    Machine(LockState(-1, true, [1, 2]), multiset{}, multiset{0},
            map[0 := Out, 1 := Asleep(DrainHolders), 2 := Asleep(DrainHolders)], false)
  }

  function OneDrains(): Machine {
    Machine(LockState(-1, true, [1]), multiset{}, multiset{0},
            map[0 := Out, 1 := Asleep(DrainHolders), 2 := Out], false)
  }

  lemma ToOneDrains() returns (ms: seq<Machine>, steps: seq<Step>)
    ensures IsRun(ms, steps) && Initially(ms[0]) && ms[|steps|] == OneDrains()
    ensures forall k | 0 <= k < |steps| :: !(steps[k].Start? && steps[k].op.Lock?)
  {
    steps := [Start(0, Greedy(Exclusive)), Start(1, Drain)];
    var m0 := Machine(LockState(0, false, []), multiset{}, multiset{}, map[0 := Out, 1 := Out, 2 := Out], false);
    var m1 := Next(m0, steps[0]);
    ms := [m0, m1, Next(m1, steps[1])];
    assert Next(m1, steps[1]) == OneDrains();
  }

  lemma ToBothDrain() returns (ms: seq<Machine>, steps: seq<Step>)
    ensures IsRun(ms, steps) && ms[0] == OneDrains() && ms[|steps|] == BothDrain()
    ensures forall k | 0 <= k < |steps| :: !(steps[k].Start? && steps[k].op.Lock?)
  {
    steps := [Start(2, Drain), Resume(1)];
    var m1 := Next(OneDrains(), steps[0]);
    assert m1.l == LockState(-1, true, [2]);
    ms := [OneDrains(), m1, Next(m1, steps[1])];
    assert Next(m1, steps[1]) == BothDrain();
  }

  lemma BothStall() returns (ms: seq<Machine>, steps: seq<Step>)
    ensures IsRun(ms, steps) && ms[0] == BothDrain() && Stalled(ms[|steps|])
    ensures forall k | 0 <= k < |steps| :: !(steps[k].Start? && steps[k].op.Lock?)
  {
    steps := [Start(0, Unlock(Exclusive)), Resume(2)];
    var m1 := Next(BothDrain(), steps[0]);
    assert m1.l == LockState(0, true, [1]);
    var m2 := Next(m1, steps[1]);
    ms := [BothDrain(), m1, m2];
    assert m2.phase[1] == Asleep(DrainHolders);
  }

  // Two drainers put each other to sleep, with nobody queueing for fairness.
  lemma TwoDrainersStall() returns (ms: seq<Machine>, steps: seq<Step>)
    ensures IsRun(ms, steps) && Initially(ms[0]) && Stalled(ms[|steps|])
    ensures forall k | 0 <= k < |steps| :: !(steps[k].Start? && steps[k].op.Lock?)
  {
    hide Next;
    hide Enabled;
    ms, steps := ToOneDrains();
    var ms1, steps1 := ToBothDrain();
    var ms2, steps2 := BothStall();
    RunsJoin(ms, steps, ms1, steps1);
    ms, steps := ms + ms1[1..], steps + steps1;
    RunsJoin(ms, steps, ms2, steps2);
    ms, steps := ms + ms2[1..], steps + steps2;
  }
}
