// The intrusive rings (system/kern/kern_ring.c): pointer updates that insert
// into and delete from a sequence.
//
// A ring is given by the cycle of its links, the list head first, in the order
// of `next`.  The contents of the ring are the links behind the head.
module Ring {
  import opened Basics

  // struct linked_ring; `data` names the thread the link is embedded in.
  class Link {
    var next: Link?
    var prev: Link?
    var data: Tid

    constructor ()
    {
      next, prev, data := null, null, 0;
    }
  }

  function Succ(i: nat, n: nat): nat
    requires i < n
  {
    if i + 1 == n then 0 else i + 1
  }

  ghost predicate Cycle(c: seq<Link>)
    reads c
  {
    && c != []
    && (forall i, j | 0 <= i < j < |c| :: c[i] != c[j])
    && (forall i | 0 <= i < |c| :: c[i].next == c[Succ(i, |c|)])
    && (forall i | 0 <= i < |c| :: c[Succ(i, |c|)].prev == c[i])
  }

  // linked_ring_init
  method Init(list: Link)
    modifies list
    ensures Cycle([list])
  {
    list.prev, list.next := list, list;
  }

  // linked_ring_empty
  method Empty(list: Link, ghost c: seq<Link>) returns (r: int)
    requires Cycle(c) && c[0] == list
    ensures r == -1 || r == 0
    ensures r != 0 <==> c[1..] == []
  {
    r := if list.next == list then -1 else 0;
    assert |c| > 1 ==> c[0].next == c[Succ(0, |c|)] && c[0] != c[1];
    assert |c| == 1 ==> c[0].next == c[Succ(0, |c|)];
  }

  // linked_ring_insert: the element becomes the first or the last of the contents.
  method Insert(list: Link, elem: Link, after: bool, ghost c: seq<Link>)
    requires Cycle(c) && c[0] == list && elem !in c
    modifies c, elem
    ensures Cycle([list] + (if after then [elem] + c[1..] else c[1..] + [elem]))
    ensures elem.data == old(elem.data) && forall l | l in c :: l.data == old(l.data)
  {
    ghost var n := |c|;
    assert c[0].next == c[Succ(0, n)];
    assert c[Succ(n - 1, n)].prev == c[n - 1];
    var a: Link, b: Link;
    if after {
      a, b := list, list.next;
    } else {
      a, b := list.prev, list;
    }
    a.next := elem;
    elem.next := b;
    b.prev := elem;
    elem.prev := a;
    ghost var c' := [list] + (if after then [elem] + c[1..] else c[1..] + [elem]);
    if after {
      assert forall i | 2 <= i < |c'| :: c'[i] == c[i - 1];
      forall i | 0 <= i < |c'| ensures c'[i].next == c'[Succ(i, |c'|)] && c'[Succ(i, |c'|)].prev == c'[i] {
        if i >= 2 {
          assert old(c[i - 1].next) == c[Succ(i - 1, n)] && old(c[Succ(i - 1, n)].prev) == c[i - 1];
        }
      }
    } else {
      assert c' == c + [elem];
      forall i | 0 <= i < |c'| ensures c'[i].next == c'[Succ(i, |c'|)] && c'[Succ(i, |c'|)].prev == c'[i] {
        if i < n - 1 {
          assert old(c[i].next) == c[Succ(i, n)] && old(c[Succ(i, n)].prev) == c[i];
        }
      }
    }
  }

  // linked_ring_remove: the element leaves the contents, wherever it is in them.
  method Remove(elem: Link, ghost c: seq<Link>, ghost p: nat)
    requires Cycle(c) && 0 < p < |c| && c[p] == elem
    modifies c
    ensures Cycle([c[0]] + (c[1..p] + c[p + 1..]))
    ensures elem.next == old(elem.next) && elem.prev == old(elem.prev)
    ensures forall l | l in c :: l.data == old(l.data)
  {
    ghost var n := |c|;
    assert Succ(p - 1, n) == p;
    assert c[p].next == c[Succ(p, n)] && c[p - 1].next == c[p] && c[Succ(p - 1, n)].prev == c[p - 1];
    var a: Link, b: Link := elem.prev, elem.next;
    a.next := b;
    b.prev := a;
    ghost var c' := [c[0]] + (c[1..p] + c[p + 1..]);
    assert c' == c[..p] + c[p + 1..];
    DropDistinct(c, p);
    forall i | 0 <= i < |c'| ensures c'[i].next == c'[Succ(i, |c'|)] && c'[Succ(i, |c'|)].prev == c'[i] {
      var k := if i < p then i else i + 1;
      DropAt(c, p, i);
      if i != p - 1 {
        assert c[k] != a && c[Succ(k, n)] != b;
        assert old(c[k].next) == c[Succ(k, n)] && old(c[Succ(k, n)].prev) == c[k];
      }
    }
  }

  lemma DropDistinct(c: seq<Link>, p: nat)
    requires p < |c| && forall i, j | 0 <= i < j < |c| :: c[i] != c[j]
    ensures var c' := c[..p] + c[p + 1..]; forall i, j | 0 <= i < j < |c'| :: c'[i] != c'[j]
  {
    var c' := c[..p] + c[p + 1..];
    forall i, j | 0 <= i < j < |c'| ensures c'[i] != c'[j] {
      var k, l := if i < p then i else i + 1, if j < p then j else j + 1;
      assert c'[i] == c[k] && c'[j] == c[l];
    }
  }

  // Positions in a cycle from which the link at `p` has been dropped.
  lemma DropAt(c: seq<Link>, p: nat, i: nat)
    requires 0 < p < |c| && i < |c| - 1
    ensures var c', k := c[..p] + c[p + 1..], if i < p then i else i + 1;
      && c'[i] == c[k]
      && c'[Succ(i, |c'|)] == c[if i == p - 1 then Succ(p, |c|) else Succ(k, |c|)]
  {
  }

  // Any link of a ring can serve as its head: the ring seen from there is the
  // same cycle, rotated.
  lemma Rotated(c: seq<Link>, p: nat)
    requires Cycle(c) && p < |c|
    ensures Cycle(c[p..] + c[..p])
  {
    var c', n := c[p..] + c[..p], |c|;
    forall i | 0 <= i < n ensures c'[i].next == c'[Succ(i, n)] && c'[Succ(i, n)].prev == c'[i] {
      var k := if i < n - p then p + i else i - (n - p);
      assert c'[i] == c[k] && c'[Succ(i, n)] == c[Succ(k, n)];
    }
  }
}
