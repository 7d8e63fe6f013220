// The scheduler operations over the run rings and the blocked ring
// (system/kern/kern_sched.c), and the conservation of threads over every run of
// them.  What an operation does under the scheduler lock is one step.  The accesses
// to t_current_cpu are outside the lock, hence steps of their own: see SetOwner
// here, and WaitProtocol for the read in sched_actualize.
module SchedOps {
  import opened Basics
  import opened SchedQueue

  // The fields of `struct thread` the scheduler looks at.
  datatype Thread = Thread(
    queueWait: bool,    // THREAD_SF_QUEUE_WAIT
    preempted: bool,    // THREAD_SF_PREEMPT
    lockSched: bool,    // THREAD_SF_LOCK_SCHED
    onQueue: bool,      // t_wait_queue is not null
    owned: bool,        // t_current_cpu is this scheduler's CPU
    nonpreempt: nat,
    priority: nat)

  datatype Sched = Sched(
    q: Queues,
    blocked: seq<Tid>,
    current: Tid,
    idle: Tid,
    count: int,
    threads: map<Tid, Thread>)

  ghost predicate Known(s: Sched) {
    && WellFormed(s.q)
    && s.current in s.threads && s.idle in s.threads
    && (forall i, t | 0 <= i < NRQS && t in s.q.rings[i] :: t in s.threads)
    && (forall t | t in s.blocked :: t in s.threads)
  }

  // The decaying values have nothing to do with who is known.
  lemma KnownDecay(s: Sched)
    requires Known(s)
    ensures forall d: seq<int> | |d| == NRQS :: Known(s.(q := s.q.(decay := d)))
  {
  }

  // sched_is_suspended
  predicate Suspended(s: Sched, t: Tid)
    requires t in s.threads
  {
    s.threads[t].queueWait && s.threads[t].onQueue
  }

  // A scheduler as sched_instanciate sets it up, run by its idle thread.
  function Fresh(first: Tid, table: map<Tid, Thread>): (s: Sched)
    requires first in table
    ensures Known(s)
  {
    Sched(Initial(), [], first, first, 1, table)
  }

  /////////////// The operations, on values ///////////////

  function RingSizes(rings: seq<seq<Tid>>): nat {
    if rings == [] then 0 else |rings[0]| + RingSizes(rings[1..])
  }

  lemma {:induction false} RingSizesUpdate(rings: seq<seq<Tid>>, i: nat, r: seq<Tid>)
    requires i < |rings|
    ensures RingSizes(rings[i := r]) == RingSizes(rings) - |rings[i]| + |r|
  {
    if i > 0 {
      assert rings[i := r][1..] == rings[1..][i - 1 := r];
      RingSizesUpdate(rings[1..], i - 1, r);
    }
  }

  // One pass of sched_schedule_next, with the thread it popped.
  function PassStep(s: Sched): (r: (Sched, Option<Tid>))
    requires Known(s)
    ensures Known(r.0)
    ensures r.1.Some? ==> r.1.value in s.threads && RingSizes(r.0.q.rings) < RingSizes(s.q.rings)
    ensures r.0 == s.(q := r.0.q)
  {
    var popped := Popped(s.q);
    var q' := Apply(s.q, Pass);
    assert forall i, t | 0 <= i < NRQS && t in q'.rings[i] :: t in s.q.rings[i];
    assert popped.Some? ==> RingSizes(q'.rings) < RingSizes(s.q.rings) by {
      if popped.Some? {
        var m := Selected(s.q).value;
        RingSizesUpdate(s.q.rings, m, s.q.rings[m][..|s.q.rings[m]| - 1]);
        assert popped.value in s.q.rings[m];
      }
    }
    (s.(q := q'), popped)
  }

  // sched_schedule_next: popped threads that have been suspended are put aside.
  function ScheduleNext(s: Sched): (r: (Sched, Option<Tid>))
    requires Known(s)
    ensures Known(r.0)
    ensures r.1.Some? ==> r.1.value in s.threads && !Suspended(s, r.1.value)
    ensures r.0 == s.(q := r.0.q, blocked := r.0.blocked)
    decreases RingSizes(s.q.rings)
  {
    var (s1, popped) := PassStep(s);
    if popped.None? then (s1, None)
    else if Suspended(s1, popped.value) then ScheduleNext(s1.(blocked := s1.blocked + [popped.value]))
    else (s1, popped)
  }

  function Ring(s: Sched, t: Tid): (i: nat)
    requires t in s.threads
    ensures i < NRQS
  {
    s.threads[t].priority % NRQS
  }

  // sched_reenqueue
  function Reenqueue(s: Sched, t: Tid): (s': Sched)
    requires Known(s) && t in s.threads
    ensures Known(s') && s' == s.(q := s'.q, blocked := s'.blocked)
  {
    if t == s.idle then s
    else if Suspended(s, t) then s.(blocked := s.blocked + [t])
    else s.(q := Apply(s.q, Enqueue(t, Ring(s, t))))
  }

  // linked_ring_remove on the thread's queue entry: it leaves the ring it is in.
  function Unlink(s: Sched, t: Tid): (s': Sched)
    requires Known(s)
    ensures Known(s') && s' == s.(q := s'.q, blocked := s'.blocked)
  {
    var s' := s.(q := Apply(s.q, Detach(t)), blocked := Without(s.blocked, t));
    assert forall i, u | 0 <= i < NRQS && u in s'.q.rings[i] :: u in s.q.rings[i] by {
      forall i, u | 0 <= i < NRQS && u in s'.q.rings[i] ensures u in s.q.rings[i] {
        WithoutIn(s.q.rings[i], t, u);
      }
    }
    assert forall u | u in s'.blocked :: u in s.blocked by {
      forall u | u in s'.blocked ensures u in s.blocked {
        WithoutIn(s.blocked, t, u);
      }
    }
    s'
  }

  // sched_insert, under the lock
  function Insert(s: Sched, t: Tid): (s': Sched)
    requires Known(s) && t in s.threads
    ensures Known(s') && s' == s.(q := s'.q, blocked := s'.blocked, count := s'.count)
  {
    var s1 := Reenqueue(s, t);
    s1.(count := s1.count + 1)
  }

  // sched_remove, under the lock
  function Remove(s: Sched): (r: (Sched, Option<Tid>))
    requires Known(s)
    ensures Known(r.0) && r.0 == s.(q := r.0.q, blocked := r.0.blocked, count := r.0.count)
    ensures r.1.Some? ==> r.1.value in s.threads
  {
    var (s1, next) := ScheduleNext(s);
    if next.None? then (s1, None) else (s1.(count := s1.count - 1), next)
  }

  // sched_actualize, under the lock
  function Actualize(s: Sched, t: Tid): (s': Sched)
    requires Known(s) && t in s.threads
    ensures Known(s') && s' == s.(q := s'.q, blocked := s'.blocked)
  {
    if s.threads[t].preempted then Reenqueue(Unlink(s, t), t) else s
  }

  // The tail of sched_preempt: make `next` current and enqueue the old thread.
  function SwitchTo(s: Sched, next: Tid): (s': Sched)
    requires Known(s) && next in s.threads
    ensures Known(s') && s'.threads.Keys == s.threads.Keys
  {
    var othr := s.current;
    if next == othr then s
    else
      var threads1 := s.threads[next := s.threads[next].(preempted := false, owned := true)];
      var threads2 := threads1[othr := threads1[othr].(preempted := true)];
      Reenqueue(s.(current := next, threads := threads2), othr)
  }

  function Preempt(s: Sched): (s': Sched)
    requires Known(s)
    ensures Known(s') && s'.threads.Keys == s.threads.Keys
  {
    var othr := s.current;
    if s.threads[othr].lockSched || s.threads[othr].nonpreempt > 0 then s
    else
      var (s1, found) := ScheduleNext(s);
      SwitchTo(s1, if found.Some? then found.value else if !Suspended(s1, othr) then othr else s1.idle)
  }

  /////////////// The operations, in place ///////////////

  // The loop of sched_schedule_next: decay and search in a single sweep.
  method Sweep(rings: array<seq<Tid>>, decay: array<int>) returns (mi: int)
    requires rings.Length == NRQS && decay.Length == NRQS
    modifies decay
    ensures rings[..] == old(rings[..])
    ensures decay[..] == Decayed(Runnable(Queues(rings[..], old(decay[..]))), old(decay[..]))
    ensures mi == match Selected(Queues(rings[..], old(decay[..]))) case None => -1 case Some(m) => m
  {
    hide Prio;
    hide Runnable;
    hide Decayed;
    ghost var run := Runnable(Queues(rings[..], decay[..]));
    ghost var d := Decayed(run, decay[..]);
    mi := -1;
    var mdecay := 0;
    var i := 0;
    while i < NRQS
      invariant 0 <= i <= NRQS && rings[..] == old(rings[..])
      invariant forall j | 0 <= j < i :: decay[j] == d[j]
      invariant forall j | i <= j < NRQS :: decay[j] == old(decay[j])
      invariant mi == match Lowest(run, d, i) case None => -1 case Some(m) => m
      invariant 0 <= mi ==> mi < i && mdecay == d[mi]
    {
      if rings[i] == [] {
        decay[i] := Prio(i);
      } else {
        decay[i] := decay[i] - 1;
        if mi < 0 || decay[i] < mdecay {
          mdecay := decay[i];
          mi := i;
        }
      }
      i := i + 1;
    }
    assert decay[..] == d;
  }

  // linked_ring_remove, seen from the rings: the thread is unlinked from the one
  // it is in.
  method DetachAll(rings: array<seq<Tid>>, t: Tid)
    modifies rings
    ensures rings[..] == Detached(old(rings[..]), t)
  {
    forall i | 0 <= i < rings.Length {
      rings[i] := Without(rings[i], t);
    }
  }

  class Scheduler {
    var rings: array<seq<Tid>>
    var decay: array<int>
    var blocked: seq<Tid>
    var current: Tid
    var idle: Tid
    var count: int
    var threads: map<Tid, Thread>

    ghost predicate Valid()
      reads this, rings, decay
    {
      && rings.Length == NRQS && decay.Length == NRQS && rings as object != decay
      && Known(View())
    }

    ghost function View(): Sched
      reads this, rings, decay
    {
      Sched(Queues(rings[..], decay[..]), blocked, current, idle, count, threads)
    }

    // sched_instanciate, followed by the assignment of the idle thread: the
    // thread that sets the scheduler up becomes its idle thread.
    constructor (first: Tid, table: map<Tid, Thread>)
      requires first in table
      ensures Valid() && fresh(rings) && fresh(decay)
      ensures View() == Fresh(first, table)
    {
      rings := new seq<Tid>[NRQS](i => []);
      decay := new int[NRQS](i requires 0 <= i < NRQS => Prio(i));
      blocked, current, idle, count, threads := [], first, first, 1, table;
      new;
      assert rings[..] == Initial().rings && decay[..] == Initial().decay;
    }

    // The selection loop and the reset of the selected ring.
    method SelectRing() returns (mi: int)
      requires Valid()
      modifies decay
      ensures Valid()
      ensures decay[..] == PassDecay(Runnable(old(View().q)), old(decay[..]))
      ensures mi == match Selected(old(View().q)) case None => -1 case Some(m) => m
    {
      hide Known;
      KnownDecay(View());
      mi := Sweep(rings, decay);
      if mi >= 0 {
        decay[mi] := Prio(mi);
      }
    }

    // One pass: select a ring and unlink the thread at its back.
    method PopOne() returns (popped: Option<Tid>)
      requires Valid()
      modifies rings, decay
      ensures Valid()
      ensures (View(), popped) == PassStep(old(View()))
    {
      ghost var q := View().q;
      var mi := SelectRing();
      if mi < 0 {
        assert View().q == Apply(q, Pass);
        return None;
      }
      var ring := rings[mi];
      popped := Some(ring[|ring| - 1]);
      rings[mi] := ring[..|ring| - 1];
      assert View().q == Apply(q, Pass);
    }

    method Next() returns (next: Option<Tid>)
      requires Valid()
      modifies rings, decay, this`blocked
      ensures Valid()
      ensures (View(), next) == ScheduleNext(old(View()))
    {
      hide PassStep;
      hide Apply;
      next := PopOne();
      while next.Some? && threads[next.value].queueWait && threads[next.value].onQueue
        invariant Valid() && unchanged(`threads)
        invariant next.Some? ==> next.value in threads
        invariant ScheduleNext(old(View())) ==
                  if next.None? || !Suspended(View(), next.value) then (View(), next)
                  else ScheduleNext(View().(blocked := blocked + [next.value]))
        decreases next.Some?, RingSizes(rings[..])
      {
        blocked := blocked + [next.value];
        next := PopOne();
      }
    }

    method Enter(t: Tid)
      requires Valid() && t in threads
      modifies rings, decay, this`blocked
      ensures Valid()
      ensures View() == Reenqueue(old(View()), t)
    {
      if t == idle {
        return;
      }
      if threads[t].queueWait && threads[t].onQueue {
        blocked := blocked + [t];
        return;
      }
      var i := threads[t].priority % NRQS;
      ghost var q := View().q;
      if rings[i] == [] {
        decay[i] := Prio(i);
      }
      rings[i] := [t] + rings[i];
      assert View().q == Apply(q, Enqueue(t, i));
    }

    method Leave(t: Tid)
      requires Valid()
      modifies rings, this`blocked
      ensures Valid()
      ensures View() == Unlink(old(View()), t)
    {
      hide Known;
      hide Without;
      hide Detached;
      ghost var s' := Unlink(View(), t);
      DetachAll(rings, t);
      blocked := Without(blocked, t);
      assert View() == s';
    }

    // The writes of t_current_cpu in sched_insert (before its locked section)
    // and in sched_remove (after it).
    method SetOwner(t: Tid, owned: bool)
      requires Valid() && t in threads
      modifies this`threads
      ensures Valid()
      ensures View() == old(View()).(threads := old(threads)[t := old(threads)[t].(owned := owned)])
    {
      threads := threads[t := threads[t].(owned := owned)];
    }

    method InsertThread(t: Tid)
      requires Valid() && t in threads
      modifies this, rings, decay
      ensures Valid() && rings == old(rings) && decay == old(decay)
      ensures View() == Insert(old(View()), t)
    {
      Enter(t);
      count := count + 1;
    }

    method RemoveThread() returns (next: Option<Tid>)
      requires Valid()
      modifies this, rings, decay
      ensures Valid() && rings == old(rings) && decay == old(decay)
      ensures (View(), next) == Remove(old(View()))
    {
      hide ScheduleNext;
      next := Next();
      if next.Some? {
        count := count - 1;
      }
    }

    method ActualizeThread(t: Tid)
      requires Valid() && t in threads
      modifies this, rings, decay
      ensures Valid() && rings == old(rings) && decay == old(decay)
      ensures View() == Actualize(old(View()), t)
    {
      if threads[t].preempted {
        Leave(t);
        Enter(t);
      }
    }

    method PreemptCurrent()
      requires Valid()
      modifies this, rings, decay
      ensures Valid() && rings == old(rings) && decay == old(decay)
      ensures View() == Preempt(old(View()))
    {
      hide ScheduleNext;
      hide Reenqueue;
      var othr := current;
      if threads[othr].lockSched || threads[othr].nonpreempt > 0 {
        return;
      }
      var found := Next();
      var nthr;
      if found.Some? {
        nthr := found.value;
      } else if !(threads[othr].queueWait && threads[othr].onQueue) {
        nthr := othr;
      } else {
        nthr := idle;
      }
      if othr != nthr {
        threads := threads[nthr := threads[nthr].(preempted := false, owned := true)];
        current := nthr;
        threads := threads[othr := threads[othr].(preempted := true)];
        Enter(othr);
      }
    }
  }

  /////////////// Conservation of threads ///////////////

  function Occurs(r: seq<Tid>, t: Tid): nat {
    multiset(r)[t]
  }

  // How often `t` is queued in the run rings.
  function Queued(rings: seq<seq<Tid>>, t: Tid): nat {
    if rings == [] then 0 else Occurs(rings[0], t) + Queued(rings[1..], t)
  }

  // The number of places `t` is in: run rings, blocked ring, and running
  // (which does not count for the idle thread).
  function Places(s: Sched, t: Tid): nat {
    Queued(s.q.rings, t) + Occurs(s.blocked, t) + (if t == s.current && t != s.idle then 1 else 0)
  }

  function Members(s: Sched): set<Tid> {
    set t | t in s.threads && Places(s, t) > 0
  }

  // Every thread is in at most one place, the idle thread is in none, and the
  // count is that of the threads in a place and the idle thread.
  ghost predicate Conserved(s: Sched) {
    && Known(s)
    && (forall t: Tid :: Places(s, t) == if t in Members(s) then 1 else 0)
    && s.idle !in Members(s)
    && s.count == 1 + |Members(s)|
    && !s.threads[s.current].preempted
  }

  lemma MembersAre(s: Sched, m: set<Tid>)
    requires m <= s.threads.Keys
    requires forall t: Tid :: Places(s, t) == if t in m then 1 else 0
    ensures Members(s) == m
  {
  }

  lemma {:induction false} QueuedUpdate(rings: seq<seq<Tid>>, i: nat, r: seq<Tid>, t: Tid)
    requires i < |rings|
    ensures Queued(rings[i := r], t) == Queued(rings, t) - Occurs(rings[i], t) + Occurs(r, t)
    ensures Occurs(rings[i], t) <= Queued(rings, t)
  {
    if i == 0 {
      assert rings[i := r][1..] == rings[1..];
    } else {
      assert rings[i := r][1..] == rings[1..][i - 1 := r];
      QueuedUpdate(rings[1..], i - 1, r, t);
    }
  }

  lemma OccursWithout(r: seq<Tid>, t: Tid, u: Tid)
    ensures Occurs(Without(r, t), u) == if u == t && Occurs(r, u) > 0 then Occurs(r, u) - 1 else Occurs(r, u)
  {
  }

  lemma {:induction false} QueuedUnlink(rings: seq<seq<Tid>>, rings': seq<seq<Tid>>, t: Tid, u: Tid)
    requires |rings| == |rings'| && forall i | 0 <= i < |rings| :: rings'[i] == Without(rings[i], t)
    ensures u != t ==> Queued(rings', u) == Queued(rings, u)
    ensures u == t && Queued(rings, u) <= 1 ==> Queued(rings', u) == 0
  {
    if rings != [] {
      QueuedUnlink(rings[1..], rings'[1..], t, u);
      OccursWithout(rings[0], t, u);
      hide Without;
      hide Occurs;
      assert rings'[0] == Without(rings[0], t);
    }
  }

  lemma EnterPlaces(s: Sched, t: Tid, u: Tid)
    requires Known(s) && t in s.threads
    ensures Places(Reenqueue(s, t), u) == Places(s, u) + (if u == t && t != s.idle then 1 else 0)
  {
    if t != s.idle && !Suspended(s, t) {
      var i := Ring(s, t);
      QueuedUpdate(s.q.rings, i, [t] + s.q.rings[i], u);
    }
  }

  lemma {:induction false} UnlinkPlaces(s: Sched, t: Tid, u: Tid)
    requires Known(s) && t != s.current && Places(s, t) <= 1
    ensures Places(Unlink(s, t), u) == if u == t then 0 else Places(s, u)
  {
    hide Without;
    hide Occurs;
    OccursWithout(s.blocked, t, u);
    QueuedUnlink(s.q.rings, Unlink(s, t).q.rings, t, u);
  }

  lemma PassPlaces(s: Sched, u: Tid)
    requires Known(s)
    ensures var (s', popped) := PassStep(s);
      Places(s', u) + (if popped == Some(u) then 1 else 0) == Places(s, u)
  {
    var m := Selected(s.q);
    if m.Some? {
      var ring := s.q.rings[m.value];
      assert ring == ring[..|ring| - 1] + [ring[|ring| - 1]];
      QueuedUpdate(s.q.rings, m.value, ring[..|ring| - 1], u);
    }
  }

  lemma {:induction false} NextPlaces(s: Sched, u: Tid)
    requires Known(s)
    ensures var (s', next) := ScheduleNext(s);
      Places(s', u) + (if next == Some(u) then 1 else 0) == Places(s, u)
    decreases RingSizes(s.q.rings)
  {
    PassPlaces(s, u);
    var (s1, popped) := PassStep(s);
    if popped.Some? && Suspended(s1, popped.value) {
      NextPlaces(s1.(blocked := s1.blocked + [popped.value]), u);
    }
  }

  // The state after sched_instanciate conserves threads.
  lemma {:induction false} FreshConserved(first: Tid, table: map<Tid, Thread>)
    requires first in table && !table[first].preempted
    ensures Conserved(Fresh(first, table)) && Members(Fresh(first, table)) == {}
  {
    var s := Fresh(first, table);
    forall t: Tid ensures Places(s, t) == 0 {
      NothingQueued(s.q.rings, t);
    }
    MembersAre(s, {});
  }

  lemma {:induction false} NothingQueued(rings: seq<seq<Tid>>, t: Tid)
    requires forall i | 0 <= i < |rings| :: rings[i] == []
    ensures Queued(rings, t) == 0
  {
    if rings != [] {
      NothingQueued(rings[1..], t);
    }
  }

  // An insert conserves threads exactly when it brings a new thread.
  lemma {:induction false} InsertConservesIff(s: Sched, t: Tid)
    requires Conserved(s) && t in s.threads
    ensures Conserved(Insert(s, t)) <==> t != s.idle && t !in Members(s)
    ensures Conserved(Insert(s, t)) ==> Members(Insert(s, t)) == Members(s) + {t}
  {
    var s' := Insert(s, t);
    forall u: Tid ensures Places(s', u) == Places(s, u) + (if u == t && t != s.idle then 1 else 0) {
      EnterPlaces(s, t, u);
    }
    hide Places;
    if t == s.idle {
      MembersAre(s', Members(s));
    } else if t !in Members(s) {
      MembersAre(s', Members(s) + {t});
    }
  }

  // The thread that is scheduled next was in a run ring.
  lemma NextIsQueued(s: Sched)
    requires Conserved(s) && ScheduleNext(s).1.Some?
    ensures var t := ScheduleNext(s).1.value; t in Members(s) && t != s.current && t != s.idle
  {
    var (s1, next) := ScheduleNext(s);
    NextPlaces(s, next.value);
  }

  lemma {:induction false} RemoveConserves(s: Sched)
    requires Conserved(s)
    ensures Conserved(Remove(s).0)
    ensures Members(Remove(s).0) == match Remove(s).1 case None => Members(s) case Some(t) => Members(s) - {t}
    ensures Remove(s).1.Some? ==> Remove(s).1.value in Members(s)
  {
    hide ScheduleNext;
    hide Queued;
    var (s1, next) := ScheduleNext(s);
    var s' := Remove(s).0;
    if next.Some? {
      NextIsQueued(s);
    }
    var m := Members(s) - (if next.Some? then {next.value} else {});
    forall u: Tid ensures Places(s', u) == if u in m then 1 else 0 {
      NextPlaces(s, u);
      assert Places(s', u) == Places(s1, u);
    }
    MembersAre(s', m);
  }

  lemma {:induction false} ActualizePlaces(s: Sched, t: Tid, u: Tid)
    requires Known(s) && t in s.threads && t != s.current && Places(s, t) <= 1 && s.threads[t].preempted
    ensures Places(Actualize(s, t), u) == if u == t then (if t == s.idle then 0 else 1) else Places(s, u)
  {
    hide Places;
    hide Reenqueue;
    hide Unlink;
    UnlinkPlaces(s, t, u);
    EnterPlaces(Unlink(s, t), t, u);
  }

  // An actualization conserves threads exactly when the thread is in the
  // scheduler, or is not touched at all.
  lemma {:induction false} ActualizeConservesIff(s: Sched, t: Tid)
    requires Conserved(s) && t in s.threads
    ensures Conserved(Actualize(s, t)) <==> !s.threads[t].preempted || t == s.idle || t in Members(s)
    ensures Conserved(Actualize(s, t)) ==> Members(Actualize(s, t)) == Members(s)
    ensures !Conserved(Actualize(s, t)) ==> Members(Actualize(s, t)) == Members(s) + {t}
  {
    hide Places;
    hide Reenqueue;
    hide Unlink;
    if s.threads[t].preempted {
      var s' := Actualize(s, t);
      var m := Members(s) + (if t != s.idle then {t} else {});
      forall u: Tid ensures Places(s', u) == if u in m then 1 else 0 {
        ActualizePlaces(s, t, u);
      }
      assert t == s.idle || t in Members(s) ==> m == Members(s);
      hide Actualize;
      MembersAre(s', m);
    }
  }

  lemma {:induction false} SwitchConserves(s: Sched, next: Tid, m: set<Tid>)
    requires Known(s) && next in s.threads && next != s.current
    requires m <= s.threads.Keys && s.idle !in m && s.count == 1 + |m|
    requires forall u: Tid :: Places(s, u) + (if u == next && next != s.idle then 1 else 0) == if u in m then 1 else 0
    ensures Conserved(SwitchTo(s, next)) && Members(SwitchTo(s, next)) == m
  {
    var othr := s.current;
    var threads1 := s.threads[next := s.threads[next].(preempted := false, owned := true)];
    var threads2 := threads1[othr := threads1[othr].(preempted := true)];
    var s1 := s.(current := next, threads := threads2);
    var s' := SwitchTo(s, next);
    forall u: Tid ensures Places(s', u) == if u in m then 1 else 0 {
      EnterPlaces(s1, othr, u);
    }
    MembersAre(s', m);
  }

  lemma {:induction false} PreemptConserves(s: Sched)
    requires Conserved(s)
    ensures Conserved(Preempt(s)) && Members(Preempt(s)) == Members(s)
  {
    hide ScheduleNext;
    hide Reenqueue;
    hide Queued;
    var othr := s.current;
    if !s.threads[othr].lockSched && s.threads[othr].nonpreempt == 0 {
      var (s1, found) := ScheduleNext(s);
      var m := Members(s);
      forall u: Tid ensures Places(s1, u) + (if found == Some(u) then 1 else 0) == if u in m then 1 else 0 {
        NextPlaces(s, u);
      }
      if found.Some? {
        NextIsQueued(s);
        SwitchConserves(s1, found.value, m);
      } else if Suspended(s1, othr) && s1.idle != othr {
        SwitchConserves(s1, s1.idle, m);
      } else {
        MembersAre(s1, m);
      }
    }
  }

  // A run of the scheduler: its locked sections, and whatever else happens to the
  // owner, flags, wait state and priority of threads.
  datatype Op =
    | DoInsert(t: Tid)
    | DoRemove
    | DoActualize(t: Tid)
    | DoPreempt
    | Touch(t: Tid, owned: bool, queueWait: bool, onQueue: bool, lockSched: bool, nonpreempt: nat, priority: nat)

  ghost predicate Allowed(s: Sched, op: Op) {
    op.DoInsert? || op.DoActualize? || op.Touch? ==> op.t in s.threads
  }

  ghost function Step(s: Sched, op: Op): (s': Sched)
    requires Known(s) && Allowed(s, op)
    ensures Known(s')
  {
    match op
    case DoInsert(t) => Insert(s, t)
    case DoRemove => Remove(s).0
    case DoActualize(t) => Actualize(s, t)
    case DoPreempt => Preempt(s)
    case Touch(t, o, w, q, l, n, p) =>
      var th := s.threads[t].(owned := o, queueWait := w, onQueue := q, lockSched := l, nonpreempt := n, priority := p);
      s.(threads := s.threads[t := th])
  }

  ghost predicate IsRun(ss: seq<Sched>, ops: seq<Op>) {
    && |ss| == |ops| + 1
    && forall k | 0 <= k < |ops| :: Known(ss[k]) && Allowed(ss[k], ops[k]) && ss[k + 1] == Step(ss[k], ops[k])
  }

  // Who inserts brings a new thread; who actualizes names a thread of the
  // scheduler, or one that has not been preempted.
  ghost predicate Orderly(s: Sched, op: Op)
    requires Allowed(s, op)
  {
    && (op.DoInsert? ==> op.t != s.idle && op.t !in Members(s))
    && (op.DoActualize? ==> !s.threads[op.t].preempted || op.t == s.idle || op.t in Members(s))
  }

  // The threads inserted so far and not yet returned by a removal: the next step
  // in a run.
  ghost function GivenNext(given: set<Tid>, s: Sched, op: Op): set<Tid>
    requires Known(s)
  {
    match op
    case DoInsert(t) => given + {t}
    case DoRemove => (match Remove(s).1 case None => given case Some(t) => given - {t})
    case _ => given
  }

  ghost function Given(ss: seq<Sched>, ops: seq<Op>, k: nat): set<Tid>
    requires IsRun(ss, ops) && k <= |ops|
  {
    if k == 0 then {} else GivenNext(Given(ss, ops, k - 1), ss[k - 1], ops[k - 1])
  }

  // Changing the flags of one thread moves nobody.
  lemma {:induction false} SetConserves(s: Sched, t: Tid, th: Thread)
    requires Conserved(s) && t in s.threads && th.preempted == s.threads[t].preempted
    ensures var s' := s.(threads := s.threads[t := th]); Conserved(s') && Members(s') == Members(s)
  {
    var s' := s.(threads := s.threads[t := th]);
    forall u: Tid ensures Places(s', u) == if u in Members(s) then 1 else 0 {
      assert Places(s', u) == Places(s, u);
    }
    MembersAre(s', Members(s));
  }

  lemma {:induction false} StepConservesIff(s: Sched, op: Op)
    requires Conserved(s) && Allowed(s, op)
    ensures Conserved(Step(s, op)) <==> Orderly(s, op)
    ensures Orderly(s, op) ==> Members(Step(s, op)) == GivenNext(Members(s), s, op)
  {
    assert Known(s);
    hide Conserved;
    hide Members;
    hide Insert;
    hide Remove;
    hide Actualize;
    hide Preempt;
    hide Known;
    match op {
      case DoInsert(t) => InsertConservesIff(s, t);
      case DoRemove => RemoveConserves(s);
      case DoActualize(t) => ActualizeConservesIff(s, t);
      case DoPreempt => PreemptConserves(s);
      case Touch(t, _, _, _, _, _, _) => SetConserves(s, t, Step(s, op).threads[t]);
    }
  }

  lemma {:induction false} ConservedSoFar(ss: seq<Sched>, ops: seq<Op>, k: nat)
    requires IsRun(ss, ops) && k <= |ops|
    requires Conserved(ss[0]) && Members(ss[0]) == {}
    requires forall j | 0 <= j < k :: Orderly(ss[j], ops[j])
    ensures Conserved(ss[k]) && Members(ss[k]) == Given(ss, ops, k)
  {
    if k > 0 {
      ConservedSoFar(ss, ops, k - 1);
      StepConservesIff(ss[k - 1], ops[k - 1]);
    }
  }

  // Over every run from the start of the scheduler, threads are conserved exactly
  // as long as inserts and actualizations are orderly; then the threads in the
  // scheduler are those inserted and not yet removed.
  lemma {:induction false} ConservedOverRuns(first: Tid, table: map<Tid, Thread>, ss: seq<Sched>, ops: seq<Op>)
    requires first in table && !table[first].preempted
    requires IsRun(ss, ops) && ss[0] == Fresh(first, table)
    ensures (forall k: nat | k < |ss| :: Conserved(ss[k])) <==> (forall k: nat | k < |ops| :: Orderly(ss[k], ops[k]))
    ensures (forall k: nat | k < |ops| :: Orderly(ss[k], ops[k])) ==>
              forall k: nat | k < |ss| :: Members(ss[k]) == Given(ss, ops, k)
  {
    hide Conserved;
    hide Orderly;
    hide Members;
    hide Given;
    FreshConserved(first, table);
    if forall k: nat | k < |ops| :: Orderly(ss[k], ops[k]) {
      forall k: nat | k < |ss| ensures Conserved(ss[k]) && Members(ss[k]) == Given(ss, ops, k) {
        ConservedSoFar(ss, ops, k);
      }
    }
    if forall k: nat | k < |ss| :: Conserved(ss[k]) {
      forall k: nat | k < |ops| ensures Orderly(ss[k], ops[k]) {
        assert Conserved(ss[k]) && Conserved(ss[k + 1]);
        StepConservesIff(ss[k], ops[k]);
      }
    }
  }

  ghost predicate InSomeRing(s: Sched, t: Tid) {
    exists i :: 0 <= i < |s.q.rings| && t in s.q.rings[i]
  }

  // What conservation says of a single thread.
  lemma ExactlyOnePlace(s: Sched, t: Tid)
    requires Conserved(s)
    ensures t in Members(s) ==>
      || (t == s.current && !InSomeRing(s, t) && t !in s.blocked)
      || (t != s.current && InSomeRing(s, t) && t !in s.blocked)
      || (t != s.current && !InSomeRing(s, t) && t in s.blocked)
    ensures t !in Members(s) ==> !InSomeRing(s, t) && t !in s.blocked && (t == s.current ==> t == s.idle)
    ensures forall i, j | 0 <= i < j < NRQS :: !(t in s.q.rings[i] && t in s.q.rings[j])
  {
    InSomeRingIffQueued(s.q.rings, t);
    assert Places(s, t) == if t in Members(s) then 1 else 0;
    forall i, j | 0 <= i < j < NRQS ensures !(t in s.q.rings[i] && t in s.q.rings[j]) {
      if t in s.q.rings[i] && t in s.q.rings[j] {
        QueuedTwice(s.q.rings, i, j, t);
        assert false;
      }
    }
  }

  /////////////// Where threads go ///////////////

  // A thread that is entered is in the blocked ring exactly when it is suspended,
  // and otherwise at the front of the ring of its priority, and in no other.
  lemma {:induction false} EnterWhere(s: Sched, t: Tid)
    requires Known(s) && t in s.threads && t != s.idle && Places(s, t) == 0
    ensures var s', th := Reenqueue(s, t), s.threads[t];
      && (t in s'.blocked <==> th.queueWait && th.onQueue)
      && (forall i | 0 <= i < 32 :: t in s'.q.rings[i] <==> !(th.queueWait && th.onQueue) && i == th.priority % 32)
      && (!(th.queueWait && th.onQueue) ==> s'.q.rings[th.priority % 32][0] == t)
  {
    InSomeRingIffQueued(s.q.rings, t);
    assert t !in s.blocked && forall i | 0 <= i < 32 :: t !in s.q.rings[i];
    var i := Ring(s, t);
    assert ([t] + s.q.rings[i])[0] == t;
  }

  // So is a preempted thread of the scheduler that is actualized, from wherever it
  // was.
  lemma {:induction false} ActualizedWhere(s: Sched, t: Tid)
    requires Conserved(s) && t in Members(s) && s.threads[t].preempted
    ensures var s', th := Actualize(s, t), s.threads[t];
      && (t in s'.blocked <==> th.queueWait && th.onQueue)
      && (forall i | 0 <= i < 32 :: t in s'.q.rings[i] <==> !(th.queueWait && th.onQueue) && i == th.priority % 32)
  {
    UnlinkPlaces(s, t, t);
    EnterWhere(Unlink(s, t), t);
    hide Unlink;
    hide Reenqueue;
  }

  // A thread that waits in a run ring for its turn and has not been suspended.
  ghost predicate Ready(s: Sched, t: Tid) {
    t in s.threads && InSomeRing(s, t) && !Suspended(s, t)
  }

  // A thread is found exactly when one is ready, and what is found was ready.
  lemma {:induction false} NextFindsReady(s: Sched)
    requires Known(s)
    ensures ScheduleNext(s).1.Some? <==> exists t :: Ready(s, t)
    ensures ScheduleNext(s).1.Some? ==> Ready(s, ScheduleNext(s).1.value)
    decreases RingSizes(s.q.rings)
  {
    var (s1, popped) := PassStep(s);
    if popped.None? {
      assert Selected(s.q).None?;
    } else {
      var u := popped.value;
      assert Ready(s, u) <==> !Suspended(s, u) by {
        assert u in s.q.rings[Selected(s.q).value];
      }
      if Suspended(s1, u) {
        var s2 := s1.(blocked := s1.blocked + [u]);
        NextFindsReady(s2);
        forall t ensures Ready(s2, t) <==> Ready(s, t) {
          StillReady(s, t);
        }
      }
    }
  }

  lemma {:induction false} StillReady(s: Sched, t: Tid)
    requires Known(s) && PassStep(s).1.Some? && Suspended(s, PassStep(s).1.value)
    ensures var s1 := PassStep(s).0;
      Ready(s1.(blocked := s1.blocked + [PassStep(s).1.value]), t) <==> Ready(s, t)
  {
    PassPlaces(s, t);
    InSomeRingIffQueued(s.q.rings, t);
    InSomeRingIffQueued(PassStep(s).0.q.rings, t);
  }

  // A preemption that the current thread does not permit changes nothing.
  lemma PreemptRefused(s: Sched)
    requires Known(s) && (s.threads[s.current].lockSched || s.threads[s.current].nonpreempt > 0)
    ensures Preempt(s) == s
  {
  }

  // Who runs after a preemption: it switches exactly when the current thread permits
  // it and a thread is ready, or the current thread is suspended and not idle; it
  // switches to a ready thread if there is one, and to the idle thread otherwise.
  lemma {:induction false} PreemptSwitchesIff(s: Sched)
    requires Conserved(s)
    ensures var othr, s' := s.threads[s.current], Preempt(s);
      && (s'.current != s.current <==>
            && !othr.lockSched && othr.nonpreempt == 0
            && ((exists t :: Ready(s, t)) || (othr.queueWait && othr.onQueue && s.current != s.idle)))
      && (s'.current != s.current ==>
            && (Ready(s, s'.current) || (s'.current == s.idle && !exists t :: Ready(s, t)))
            && s'.threads[s'.current].owned && !s'.threads[s'.current].preempted && s'.threads[s.current].preempted)
  {
    NextFindsReady(s);
    if ScheduleNext(s).1.Some? {
      NextIsQueued(s);
    }
    hide ScheduleNext;
    hide Reenqueue;
    hide Conserved;
    hide Ready;
  }

  // Where the thread that was switched away is afterwards.
  lemma {:induction false} PreemptedWhere(s: Sched)
    requires Conserved(s) && Preempt(s).current != s.current && s.current != s.idle
    ensures var s', th := Preempt(s), s.threads[s.current];
      && (s.current in s'.blocked <==> th.queueWait && th.onQueue)
      && (forall i | 0 <= i < 32 ::
            s.current in s'.q.rings[i] <==> !(th.queueWait && th.onQueue) && i == th.priority % 32)
  {
    var (s1, found) := ScheduleNext(s);
    var next := if found.Some? then found.value else if !Suspended(s1, s.current) then s.current else s1.idle;
    NextPlaces(s, s.current);
    assert Places(s, s.current) == 1;
    hide ScheduleNext;
    hide Conserved;
    var threads1 := s1.threads[next := s1.threads[next].(preempted := false, owned := true)];
    var threads2 := threads1[s.current := threads1[s.current].(preempted := true)];
    var s2 := s1.(current := next, threads := threads2);
    assert Places(s1, s.current) == 1 && Places(s2, s.current) == 0;
    EnterWhere(s2, s.current);
  }

  lemma {:induction false} InSomeRingIffQueued(rings: seq<seq<Tid>>, t: Tid)
    ensures (exists i :: 0 <= i < |rings| && t in rings[i]) <==> Queued(rings, t) > 0
  {
    if rings != [] {
      InSomeRingIffQueued(rings[1..], t);
      if Queued(rings[1..], t) > 0 {
        var i :| 0 <= i < |rings[1..]| && t in rings[1..][i];
        assert t in rings[i + 1];
      } else if i :| 0 <= i < |rings| && t in rings[i] {
        assert i == 0 || t in rings[1..][i - 1];
      }
    }
  }

  lemma QueuedTwice(rings: seq<seq<Tid>>, i: nat, j: nat, t: Tid)
    requires i < j < |rings| && t in rings[i] && t in rings[j]
    ensures Queued(rings, t) >= 2
  {
    QueuedUpdate(rings, i, [], t);
    QueuedUpdate(rings[i := []], j, [], t);
    assert rings[i := []][j] == rings[j];
  }
}
