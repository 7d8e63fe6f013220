// Wait queues (system/kern/kern_wait.c): a ring of the wait entries of threads.
module WaitQueue {
  import opened Basics
  import opened Ring

  class WaitQueue {
    const head: Link                 // wq_threads
    ghost var cycle: seq<Link>       // the ring, head first
    ghost var threads: seq<Tid>      // the threads waiting, in ring order

    ghost predicate Valid()
      reads this, cycle
    {
      && Cycle(cycle) && cycle[0] == head && |cycle| == |threads| + 1
      && forall i | 0 <= i < |threads| :: cycle[i + 1].data == threads[i]
    }

    constructor ()
      ensures Valid() && fresh(head) && cycle == [head] && threads == []
    {
      var link := new Link();
      head, cycle, threads := link, [link], [];
      new;
      Ring.Init(head);
    }

    // linked_ring_empty(&wq_threads)
    method IsEmpty() returns (b: bool)
      requires Valid()
      ensures b <==> threads == []
    {
      var r := Ring.Empty(head, cycle);
      b := r != 0;
    }

    // waitqueue_enter: the thread's entry becomes the first or the last of the ring.
    method Enter(elem: Link, t: Tid, after: bool)
      requires Valid() && elem !in cycle
      modifies this, cycle, elem
      ensures Valid()
      ensures threads == if after then [t] + old(threads) else old(threads) + [t]
      ensures cycle == [head] + (if after then [elem] + old(cycle[1..]) else old(cycle[1..]) + [elem])
    {
      elem.data := t;
      Ring.Insert(head, elem, after, cycle);
      ghost var was := cycle;
      cycle := [head] + (if after then [elem] + cycle[1..] else cycle[1..] + [elem]);
      threads := if after then [t] + threads else threads + [t];
      forall i | 0 <= i < |threads| ensures cycle[i + 1].data == threads[i] {
        assert cycle[i + 1] == elem || cycle[i + 1] in was;
      }
    }

    // waitqueue_get_first, up to the actualization: the entry at the back of the
    // ring is unlinked.
    method GetFirst() returns (woken: Option<Tid>)
      requires Valid()
      modifies this, cycle
      ensures Valid()
      ensures old(threads) == [] ==> woken == None && threads == old(threads) && cycle == old(cycle)
      ensures old(threads) != [] ==>
        var n := old(|threads|);
        woken == Some(old(threads)[n - 1]) && threads == old(threads)[..n - 1] && cycle == old(cycle)[..n]
    {
      ghost var n := |threads|;
      assert cycle[Succ(n, n + 1)].prev == cycle[n];
      assert n > 0 ==> cycle[0] != cycle[n];
      var elem := head.prev;
      if elem == head {
        return None;
      }
      woken := Some(elem.data);
      ghost var was := cycle;
      Ring.Remove(elem, cycle, n);
      assert [was[0]] + (was[1..n] + was[n + 1..]) == was[..n];
      cycle, threads := was[..n], threads[..n - 1];
      forall i | 0 <= i < |threads| ensures cycle[i + 1].data == threads[i] {
        assert cycle[i + 1] == was[i + 1] && was[i + 1] in was;
      }
    }
  }
}
