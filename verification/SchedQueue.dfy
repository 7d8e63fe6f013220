// The 32 run rings and their decaying values (system/kern/kern_sched.c).
//
// A ring is the sequence of its threads from `next` to `prev`: a thread is
// enqueued at the front and popped from the back.  This module is about the
// rings alone; which of the popped threads run is the subject of `SchedOps`.
module SchedQueue {
  import opened Basics

  const NRQS: nat := 32

  const PRIOS: seq<int> :=
    [1, 5, 11, 19, 28, 38, 49, 60, 72, 84,
     97, 110, 123, 137, 151, 165, 180, 195,
     210, 225, 240, 256, 272, 288, 304, 320,
     337, 354, 371, 388, 405, 422]

  // The value a ring's counter is reset to.
  function Prio(i: nat): (p: int)
    requires i < NRQS
    ensures 1 <= p <= 422
  {
    PRIOS[i]
  }

  datatype Queues = Queues(rings: seq<seq<Tid>>, decay: seq<int>)

  ghost predicate WellFormed(q: Queues) {
    |q.rings| == NRQS && |q.decay| == NRQS
  }

  // One flag per ring: does it hold a thread?
  function Runnable(q: Queues): (run: seq<bool>)
    requires WellFormed(q)
    ensures |run| == NRQS
    ensures forall i | 0 <= i < NRQS :: run[i] <==> q.rings[i] != []
  {
    seq(NRQS, i requires 0 <= i < NRQS => q.rings[i] != [])
  }

  /////////////// One pass of the selection loop ///////////////

  // First step as documented: empty rings are reset, the others decay.
  function Decayed(run: seq<bool>, decay: seq<int>): (d: seq<int>)
    requires |run| == NRQS && |decay| == NRQS
    ensures |d| == NRQS
    ensures forall i | 0 <= i < NRQS :: d[i] == if run[i] then decay[i] - 1 else Prio(i)
  {
    seq(NRQS, i requires 0 <= i < NRQS => if run[i] then decay[i] - 1 else Prio(i))
  }

  // Second step as documented: `m` is the first of the runnable rings below
  // `n` that have the lowest decaying value.
  ghost predicate IsLowest(run: seq<bool>, d: seq<int>, n: nat, m: nat)
    requires |run| == |d| && n <= |d|
  {
    && m < n && run[m]
    && forall j | 0 <= j < n && run[j] :: d[m] <= d[j] && (j < m ==> d[m] < d[j])
  }

  function Lowest(run: seq<bool>, d: seq<int>, n: nat): (m: Option<nat>)
    requires |run| == |d| && n <= |d|
    ensures m.None? <==> forall j | 0 <= j < n :: !run[j]
    ensures m.Some? ==> IsLowest(run, d, n, m.value)
  {
    if n == 0 then None
    else
      var m := Lowest(run, d, n - 1);
      if run[n - 1] && (m.None? || d[n - 1] < d[m.value]) then Some(n - 1) else m
  }

  function Selected(q: Queues): (m: Option<nat>)
    requires WellFormed(q)
    ensures m.None? <==> forall i | 0 <= i < NRQS :: q.rings[i] == []
    ensures m.Some? ==> m.value < NRQS && q.rings[m.value] != []
  {
    Lowest(Runnable(q), Decayed(Runnable(q), q.decay), NRQS)
  }

  // The thread the pass pops: the one at the back of the selected ring.
  function Popped(q: Queues): (t: Option<Tid>)
    requires WellFormed(q)
    ensures t.None? <==> forall i | 0 <= i < NRQS :: q.rings[i] == []
  {
    var m := Selected(q);
    if m.None? then None else Some(q.rings[m.value][|q.rings[m.value]| - 1])
  }

  function PassDecay(run: seq<bool>, decay: seq<int>): (d: seq<int>)
    requires |run| == NRQS && |decay| == NRQS
    ensures |d| == NRQS
  {
    var d := Decayed(run, decay);
    match Lowest(run, d, NRQS)
    case None => d
    case Some(m) => d[m := Prio(m)]
  }

  /////////////// What happens to the rings ///////////////

  datatype Event =
    | Pass                          // one pass of the selection loop
    | Enqueue(t: Tid, ring: nat)    // a thread enters a ring
    | Detach(t: Tid)                // a thread is unlinked from the ring it is in

  predicate Admissible(e: Event) {
    e.Enqueue? ==> e.ring < NRQS
  }

  // The rings with the first occurrence of `t` unlinked.
  function Detached(rings: seq<seq<Tid>>, t: Tid): (rings': seq<seq<Tid>>)
    ensures |rings'| == |rings|
    ensures forall i | 0 <= i < |rings| :: rings'[i] == Without(rings[i], t)
  {
    seq(|rings|, i requires 0 <= i < |rings| => Without(rings[i], t))
  }

  function Apply(q: Queues, e: Event): (q': Queues)
    requires WellFormed(q) && Admissible(e)
    ensures WellFormed(q')
  {
    match e
    case Pass =>
      var decay := PassDecay(Runnable(q), q.decay);
      (match Selected(q)
       case None => q.(decay := decay)
       case Some(m) => Queues(q.rings[m := q.rings[m][..|q.rings[m]| - 1]], decay))
    case Enqueue(t, i) =>
      Queues(q.rings[i := [t] + q.rings[i]],
             if q.rings[i] == [] then q.decay[i := Prio(i)] else q.decay)
    case Detach(t) =>
      q.(rings := Detached(q.rings, t))
  }

  function Run(q: Queues, es: seq<Event>): (q': Queues)
    requires WellFormed(q) && forall e | e in es :: Admissible(e)
    ensures WellFormed(q')
    decreases |es|
  {
    if es == [] then q else Run(Apply(q, es[0]), es[1..])
  }

  function Passes(es: seq<Event>): nat {
    if es == [] then 0 else (if es[0].Pass? then 1 else 0) + Passes(es[1..])
  }

  function Initial(): (q: Queues)
    ensures WellFormed(q)
  {
    Queues(seq(NRQS, i => []), seq(NRQS, i requires 0 <= i < NRQS => Prio(i)))
  }

  /////////////// The decay bound ///////////////

  // The rings whose counter is at or below -k.
  ghost function Sunk(decay: seq<int>, k: int): set<nat> {
    set i: nat | i < |decay| && decay[i] <= -k
  }

  // The counting invariant: at most NRQS-1-k counters are at or below -k.
  ghost predicate Counted(decay: seq<int>) {
    forall k :: 0 <= k < NRQS ==> |Sunk(decay, k)| + k <= NRQS - 1
  }

  ghost predicate DecayOk(q: Queues) {
    && WellFormed(q)
    && (forall i | 0 <= i < NRQS :: q.decay[i] <= Prio(i))
    && Counted(q.decay)
  }

  ghost function Indices(n: nat): (all: set<nat>)
    ensures |all| == n
    ensures forall i: nat :: i in all <==> i < n
  {
    if n == 0 then {} else Indices(n - 1) + {n - 1}
  }

  lemma SunkMonotone(a: seq<int>, b: seq<int>, k: int)
    requires Sunk(a, k) <= Sunk(b, k)
    ensures |Sunk(a, k)| <= |Sunk(b, k)|
  {
    SubsetSize(Sunk(a, k), Sunk(b, k));
  }

  lemma {:induction false} SubsetSize(a: set<nat>, b: set<nat>)
    requires a <= b
    ensures |a| <= |b|
  {
    if a != {} {
      var x :| x in a;
      SubsetSize(a - {x}, b - {x});
    }
  }

  // No counter is ever below -(NRQS-2) between passes.
  lemma DecayLowerBound(q: Queues, i: nat)
    requires DecayOk(q) && i < NRQS
    ensures -(NRQS - 2) <= q.decay[i] <= Prio(i)
  {
    assert |Sunk(q.decay, NRQS - 1)| == 0;
    assert i !in Sunk(q.decay, NRQS - 1);
  }

  // What a pass that selects `m` does to the counters at or below -k.
  lemma {:induction false} PassSunk(run: seq<bool>, decay: seq<int>, k: nat, m: nat)
    requires |run| == NRQS && |decay| == NRQS && Lowest(run, Decayed(run, decay), NRQS) == Some(m) && m < NRQS
    ensures var sunk := Sunk(PassDecay(run, decay), k);
      && m !in sunk
      && (k > 0 ==> sunk <= Sunk(decay, k - 1) && (sunk != {} ==> m in Sunk(decay, k - 1)))
  {
    hide Prio;
    hide Lowest;
    hide Decayed;
    var d := Decayed(run, decay);
    assert PassDecay(run, decay) == d[m := Prio(m)];
    hide PassDecay;
    var sunk := Sunk(d[m := Prio(m)], k);
    if k > 0 {
      forall x | x in sunk ensures x in Sunk(decay, k - 1) && m in Sunk(decay, k - 1) {
        assert run[x] && d[x] == decay[x] - 1;
        assert IsLowest(run, d, NRQS, m);
      }
    }
  }

  lemma PassKeepsCount(run: seq<bool>, decay: seq<int>, k: nat)
    requires |run| == NRQS && |decay| == NRQS && Counted(decay)
    requires k < NRQS
    ensures |Sunk(PassDecay(run, decay), k)| + k <= NRQS - 1
  {
    hide Prio;
    var sunk := Sunk(PassDecay(run, decay), k);
    match Lowest(run, Decayed(run, decay), NRQS) {
      case None =>
        assert sunk == {};
      case Some(m) =>
        PassSunk(run, decay, k, m);
        hide PassDecay;
        if k == 0 {
          SubsetSize(sunk, Indices(NRQS) - {m});
        } else if sunk != {} {
          SubsetSize(sunk, Sunk(decay, k - 1) - {m});
        }
    }
  }

  // Every event keeps the counting invariant.
  lemma DecayStep(q: Queues, e: Event)
    requires DecayOk(q) && Admissible(e)
    ensures DecayOk(Apply(q, e))
  {
    var q' := Apply(q, e);
    match e {
      case Pass =>
        forall k | 0 <= k < NRQS ensures |Sunk(q'.decay, k)| + k <= NRQS - 1 {
          PassKeepsCount(Runnable(q), q.decay, k);
        }
      case Enqueue(t, i) =>
        forall k | 0 <= k < NRQS ensures |Sunk(q'.decay, k)| + k <= NRQS - 1 {
          SunkMonotone(q'.decay, q.decay, k);
        }
      case Detach(t) =>
    }
  }

  lemma InitialDecayOk()
    ensures DecayOk(Initial())
  {
    forall k | 0 <= k < NRQS ensures |Sunk(Initial().decay, k)| + k <= NRQS - 1 {
      assert Sunk(Initial().decay, k) == {};
    }
  }

  lemma {:induction false} DecayOverRuns(q: Queues, es: seq<Event>)
    requires DecayOk(q) && forall e | e in es :: Admissible(e)
    ensures DecayOk(Run(q, es))
    decreases |es|
  {
    if es != [] {
      DecayStep(q, es[0]);
      DecayOverRuns(Apply(q, es[0]), es[1..]);
    }
  }

  // Over every run from the initial state the counters stay within bounds: at
  // least -(NRQS-2) between events, and at least -(NRQS-1) inside a pass, where
  // the selected ring has not been reset yet.
  lemma {:induction false} DecayBound(es: seq<Event>, i: nat)
    requires forall e | e in es :: Admissible(e)
    requires i < NRQS
    ensures var q := Run(Initial(), es);
      && -(NRQS - 2) <= q.decay[i] <= Prio(i)
      && -(NRQS - 1) <= Decayed(Runnable(q), q.decay)[i] <= Prio(i)
  {
    InitialDecayOk();
    DecayOverRuns(Initial(), es);
    DecayLowerBound(Run(Initial(), es), i);
  }

  /////////////// Bounded waiting ///////////////

  // The number of passes within which a ring that stays non-empty is selected.
  function Patience(i: nat): nat
    requires i < NRQS
  {
    Prio(i) + NRQS - 1
  }

  // Some pass of the run selects ring `i`.
  ghost predicate Selects(q: Queues, es: seq<Event>, i: nat)
    requires WellFormed(q) && forall e | e in es :: Admissible(e)
  {
    exists k :: 0 <= k < |es| && es[k].Pass? && Selected(Run(q, es[..k])) == Some(i)
  }

  // Some pass of the run pops `t` from ring `i`.
  ghost predicate Pops(q: Queues, es: seq<Event>, i: nat, t: Tid)
    requires WellFormed(q) && forall e | e in es :: Admissible(e)
  {
    exists k :: 0 <= k < |es| && es[k].Pass?
                && Selected(Run(q, es[..k])) == Some(i) && Popped(Run(q, es[..k])) == Some(t)
  }

  // Ring `i` holds a thread before every event of the run.
  ghost predicate NeverEmpty(q: Queues, es: seq<Event>, i: nat)
    requires WellFormed(q) && i < NRQS && forall e | e in es :: Admissible(e)
  {
    forall k | 0 <= k < |es| :: Run(q, es[..k]).rings[i] != []
  }

  lemma RunFirst(q: Queues, es: seq<Event>, k: nat)
    requires WellFormed(q) && forall e | e in es :: Admissible(e)
    requires 0 < k <= |es|
    ensures Run(q, es[..k]) == Run(Apply(q, es[0]), es[1..][..k - 1])
  {
    assert es[..k][1..] == es[1..][..k - 1];
  }

  lemma {:induction false} SelectsLater(q: Queues, es: seq<Event>, i: nat)
    requires WellFormed(q) && es != [] && forall e | e in es :: Admissible(e)
    requires Selects(Apply(q, es[0]), es[1..], i)
    ensures Selects(q, es, i)
  {
    hide Selected;
    hide Popped;
    hide Apply;
    var k :| 0 <= k < |es[1..]| && es[1..][k].Pass? && Selected(Run(Apply(q, es[0]), es[1..][..k])) == Some(i);
    RunFirst(q, es, k + 1);
    assert es[k + 1].Pass? && Selected(Run(q, es[..k + 1])) == Some(i);
  }

  lemma {:induction false} PopsLater(q: Queues, es: seq<Event>, i: nat, t: Tid)
    requires WellFormed(q) && es != [] && forall e | e in es :: Admissible(e)
    requires Pops(Apply(q, es[0]), es[1..], i, t)
    ensures Pops(q, es, i, t)
  {
    hide Selected;
    hide Popped;
    hide Apply;
    var q1 := Apply(q, es[0]);
    var k :| 0 <= k < |es[1..]| && es[1..][k].Pass?
             && Selected(Run(q1, es[1..][..k])) == Some(i) && Popped(Run(q1, es[1..][..k])) == Some(t);
    RunFirst(q, es, k + 1);
    assert es[k + 1].Pass? && Popped(Run(q, es[..k + 1])) == Some(t);
  }

  // How one event moves the counter of a ring that holds a thread.
  lemma Waits(q: Queues, e: Event, i: nat)
    requires WellFormed(q) && i < NRQS && Admissible(e) && q.rings[i] != []
    ensures Apply(q, e).decay[i] ==
            if !e.Pass? then q.decay[i] else if Selected(q) == Some(i) then Prio(i) else q.decay[i] - 1
  {
  }

  // A ring that is never empty is selected once the passes have used up its
  // counter, whatever else is enqueued or unlinked in between.
  lemma {:induction false} SelectedInTime(q: Queues, es: seq<Event>, i: nat)
    requires DecayOk(q) && i < NRQS && forall e | e in es :: Admissible(e)
    requires NeverEmpty(q, es, i)
    requires Passes(es) >= q.decay[i] + NRQS - 1
    ensures Selects(q, es, i)
    decreases |es|
  {
    DecayLowerBound(q, i);
    var e, q1 := es[0], Apply(q, es[0]);
    assert es[..0] == [];
    assert q.rings[i] != [] by { assert Run(q, es[..0]).rings[i] != []; }
    if e.Pass? && Selected(q) == Some(i) {
      assert es[0].Pass? && Selected(Run(q, es[..0])) == Some(i);
    } else {
      DecayStep(q, e);
      forall k | 0 <= k < |es[1..]| ensures Run(q1, es[1..][..k]).rings[i] != [] {
        RunFirst(q, es, k + 1);
        assert Run(q, es[..k + 1]).rings[i] != [];
      }
      SelectedInTime(q1, es[1..], i);
      SelectsLater(q, es, i);
    }
  }

  // Bounded waiting: while run ring `i` never becomes empty, some pass selects it
  // within Prio(i) + NRQS - 1 passes.
  lemma {:induction false} BoundedWaiting(q: Queues, es: seq<Event>, i: nat)
    requires DecayOk(q) && i < NRQS && forall e | e in es :: Admissible(e)
    requires NeverEmpty(q, es, i)
    requires Passes(es) >= Patience(i)
    ensures Selects(q, es, i)
  {
    SelectedInTime(q, es, i);
  }

  // `t` is in ring `i` with `p` threads ahead of it.
  ghost predicate Ahead(q: Queues, i: nat, t: Tid, p: nat)
    requires WellFormed(q) && i < NRQS
  {
    p < |q.rings[i]| && q.rings[i][|q.rings[i]| - 1 - p] == t
  }

  // One event that neither unlinks nor pops `t` leaves it at most as far back.
  lemma AheadStep(q: Queues, e: Event, i: nat, t: Tid, p: nat) returns (p': nat)
    requires WellFormed(q) && i < NRQS && Admissible(e) && Ahead(q, i, t, p)
    requires e != Detach(t)
    requires e.Pass? ==> !(Selected(q) == Some(i) && p == 0)
    ensures Ahead(Apply(q, e), i, t, p') && p' <= p
    ensures e.Pass? && Selected(q) == Some(i) ==> p' == p - 1
  {
    var ring := q.rings[i];
    match e {
      case Pass =>
        p' := if Selected(q) == Some(i) then p - 1 else p;
      case Enqueue(u, j) =>
        p' := p;
      case Detach(u) =>
        var k := WithoutDistance(ring, u, |ring| - 1 - p);
        p' := |Without(ring, u)| - 1 - k;
    }
  }

  // What `p` threads ahead can cost, in passes.
  function Cost(i: nat, p: nat): (n: nat)
    requires i < NRQS
    ensures n == p * Patience(i)
  {
    if p == 0 then 0 else Patience(i) + Cost(i, p - 1)
  }

  lemma {:induction false} CostMonotone(i: nat, p: nat, p': nat)
    requires i < NRQS && p' <= p
    ensures Cost(i, p') <= Cost(i, p)
  {
    if p' < p {
      CostMonotone(i, p - 1, p');
    }
  }

  // The remaining passes of a thread with `p` ahead of it are bounded by
  // p * Patience + counter + NRQS - 1: a pass that selects the ring trades one
  // thread ahead for a fresh counter, any other pass lowers the counter.
  lemma {:induction false} PoppedInTime(q: Queues, es: seq<Event>, i: nat, t: Tid, p: nat)
    requires DecayOk(q) && i < NRQS && forall e | e in es :: Admissible(e)
    requires Ahead(q, i, t, p) && Detach(t) !in es
    requires Passes(es) >= Cost(i, p) + q.decay[i] + NRQS - 1
    ensures Pops(q, es, i, t)
    decreases |es|
  {
    DecayLowerBound(q, i);
    var e, q1 := es[0], Apply(q, es[0]);
    assert es[..0] == [];
    if e.Pass? && Selected(q) == Some(i) && p == 0 {
      assert es[0].Pass? && Selected(Run(q, es[..0])) == Some(i) && Popped(Run(q, es[..0])) == Some(t);
    } else {
      DecayStep(q, e);
      var p' := AheadStep(q, e, i, t, p);
      CostMonotone(i, p, p');
      Waits(q, e, i);
      PoppedInTime(q1, es[1..], i, t, p');
      PopsLater(q, es, i, t);
    }
  }

  // First in, first out: a thread with `p` threads ahead of it is popped within
  // (p+1) times the bound, as long as nobody unlinks it.
  lemma {:induction false} FifoWaiting(q: Queues, es: seq<Event>, i: nat, t: Tid, p: nat)
    requires DecayOk(q) && i < NRQS && forall e | e in es :: Admissible(e)
    requires Ahead(q, i, t, p) && Detach(t) !in es
    requires Passes(es) >= (p + 1) * Patience(i)
    ensures Pops(q, es, i, t)
  {
    assert Cost(i, p + 1) == Patience(i) + Cost(i, p);
    PoppedInTime(q, es, i, t, p);
  }

  /////////////// Priorities ///////////////

  // No event lowers a counter by more than one, and only a pass lowers it.
  lemma SlowDecay(q: Queues, e: Event, j: nat)
    requires DecayOk(q) && Admissible(e) && j < NRQS
    ensures Apply(q, e).decay[j] >= q.decay[j] - (if e.Pass? then 1 else 0)
  {
  }

  // While ring `i` holds a thread, ring `j` is not selected before its counter
  // has come down to what ring `i` starts from.
  lemma {:induction false} NotSelectedEarly(q: Queues, es: seq<Event>, i: nat, j: nat)
    requires DecayOk(q) && i < NRQS && j < NRQS && forall e | e in es :: Admissible(e)
    requires NeverEmpty(q, es, i)
    requires Passes(es) <= q.decay[j] - Prio(i)
    ensures !Selects(q, es, j)
    decreases |es|
  {
    hide Prio;
    forall k | 0 <= k < |es| && es[k].Pass? ensures Selected(Run(q, es[..k])) != Some(j) {
      var e, q1 := es[0], Apply(q, es[0]);
      if k == 0 {
        assert es[..0] == [] && Run(q, es[..0]) == q;
      } else {
        DecayStep(q, e);
        SlowDecay(q, e, j);
        forall l | 0 <= l < |es[1..]| ensures Run(q1, es[1..][..l]).rings[i] != [] {
          RunFirst(q, es, l + 1);
          assert Run(q, es[..l + 1]).rings[i] != [];
        }
        NotSelectedEarly(q1, es[1..], i, j);
        RunFirst(q, es, k);
        assert es[1..][k - 1].Pass?;
      }
    }
  }

  // Priorities are respected: a ring that has just been selected, or that was
  // empty and has just received a thread, is not selected (again) within the
  // next Prio(j) - Prio(i) passes while a ring `i` of higher priority waits.
  lemma {:induction false} PriorityRespected(q: Queues, e: Event, es: seq<Event>, i: nat, j: nat)
    requires DecayOk(q) && i < NRQS && j < NRQS && Admissible(e) && forall f | f in es :: Admissible(f)
    requires (e.Pass? && Selected(q) == Some(j)) || (e.Enqueue? && e.ring == j && q.rings[j] == [])
    requires NeverEmpty(Apply(q, e), es, i)
    requires Passes(es) <= Prio(j) - Prio(i)
    ensures !Selects(Apply(q, e), es, j)
  {
    DecayStep(q, e);
    NotSelectedEarly(Apply(q, e), es, i, j);
  }

  // The table starts at 1 and ascends, so a lower ring number is a higher priority.
  lemma {:induction false} PriosAscend(i: nat, j: nat)
    requires i < j < NRQS
    ensures Prio(0) == 1 && Prio(i) + 4 <= Prio(j)
    decreases j
  {
    assert forall k | 0 <= k < NRQS - 1 :: PRIOS[k] + 4 <= PRIOS[k + 1];
    if i + 1 < j {
      PriosAscend(i, j - 1);
    }
  }

  // Hence a ring that has just been selected is not selected again in the next four
  // passes while a ring with a lower number waits.
  lemma {:induction false} LowerNumberFirst(q: Queues, es: seq<Event>, i: nat, j: nat)
    requires DecayOk(q) && i < j < NRQS && forall f | f in es :: Admissible(f)
    requires Selected(q) == Some(j) && NeverEmpty(Apply(q, Pass), es, i) && Passes(es) <= 4
    ensures !Selects(Apply(q, Pass), es, j)
  {
    PriosAscend(i, j);
    PriorityRespected(q, Pass, es, i, j);
  }

  /////////////// The macro as written ///////////////

  // `sched_runnable` expands to `linked_ring_empty`, which is true of an empty
  // ring.  Read literally, a pass can only ever select a ring without a thread.
  lemma LiteralPolaritySelectsEmpty(q: Queues)
    requires WellFormed(q)
    ensures var literal := seq(NRQS, i requires 0 <= i < NRQS => q.rings[i] == []);
      var m := Lowest(literal, Decayed(literal, q.decay), NRQS);
      && (m.None? <==> forall i | 0 <= i < NRQS :: q.rings[i] != [])
      && (m.Some? ==> q.rings[m.value] == [])
  {
    var literal := seq(NRQS, i requires 0 <= i < NRQS => q.rings[i] == []);
    var m := Lowest(literal, Decayed(literal, q.decay), NRQS);
    if m.None? {
      forall i | 0 <= i < NRQS ensures q.rings[i] != [] { assert !literal[i]; }
    }
  }
}
