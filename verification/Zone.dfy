// The zone allocator (system/kern/zalloc.c): fixed-size buffers whose free list
// is threaded through the first word of the free buffers; in a live buffer that
// word names the zone.
module Zone {
  import opened Basics

  const HEADER: nat := 4       // sizeof(Pointer)
  const BUF_LINE: nat := 128

  /////////////// Buffer sizes ///////////////

  predicate PowerOfTwo(n: nat) {
    n == 1 || (n > 1 && n % 2 == 0 && PowerOfTwo(n / 2))
  }

  // Two powers of two that are less than a factor of two apart are equal.
  lemma {:induction false} NextPower(p: nat, q: nat)
    requires PowerOfTwo(p) && PowerOfTwo(q) && p <= q && q < 2 * p
    ensures p == q
  {
    if p > 1 {
      NextPower(p / 2, q / 2);
    }
  }

  // The size a zone wants for its buffers: the least power of two up to 128, or
  // else the least multiple of 128, that holds the object and a pointer.
  ghost predicate RightSize(size: nat, num: nat) {
    var need := size + HEADER;
    && num >= need
    && (need <= BUF_LINE ==>
          PowerOfTwo(num) && num >= 2 && num <= BUF_LINE && forall p: nat | PowerOfTwo(p) && p >= need :: num <= p)
    && (need > BUF_LINE ==>
          num % BUF_LINE == 0 && forall m: nat | m % BUF_LINE == 0 && m >= need :: num <= m)
  }

  method CalcBufsize(size: nat) returns (num: nat)
    ensures RightSize(size, num)
  {
    num := 0;
    var mul: nat := 1;
    var need := size + HEADER;
    while num < need
      invariant PowerOfTwo(mul) && 1 <= mul <= BUF_LINE
      invariant num == 0 ==> mul == 1
      invariant 0 < num < BUF_LINE ==> num == mul
      invariant num >= BUF_LINE ==> mul == BUF_LINE && num % BUF_LINE == 0
      invariant 0 < num <= BUF_LINE ==> num == mul && num >= 2 && num / 2 < need
      invariant num > BUF_LINE ==> num - BUF_LINE < need
      decreases need - num
    {
      if num < BUF_LINE {
        Doubling(mul);
        mul := mul * 2;
        num := mul;
      } else {
        num := num + mul;
      }
    }
    LeastSize(size, num);
  }

  lemma Doubling(mul: nat)
    requires PowerOfTwo(mul)
    ensures PowerOfTwo(2 * mul)
    ensures mul < BUF_LINE ==> 2 * mul <= BUF_LINE
  {
    assert 2 * mul / 2 == mul;
    if mul < BUF_LINE && 2 * mul > BUF_LINE {
      assert PowerOfTwo(128) by {
        assert PowerOfTwo(1) && PowerOfTwo(2) && PowerOfTwo(4) && PowerOfTwo(8);
        assert PowerOfTwo(16) && PowerOfTwo(32) && PowerOfTwo(64);
      }
      NextPower(mul, 128);
    }
  }

  lemma LeastSize(size: nat, num: nat)
    requires num >= size + HEADER
    requires num <= BUF_LINE ==> PowerOfTwo(num) && num >= 2 && num / 2 < size + HEADER
    requires num > BUF_LINE ==> num % BUF_LINE == 0 && num - BUF_LINE < size + HEADER
    ensures RightSize(size, num)
  {
    var need := size + HEADER;
    if need <= BUF_LINE {
      assert num <= BUF_LINE;
      forall p: nat | PowerOfTwo(p) && p >= need ensures num <= p {
        if p < num {
          assert num % 2 == 0 && p > num / 2;
          NextPower(p, num);
        }
      }
    } else {
      forall m: nat | m % BUF_LINE == 0 && m >= need ensures num <= m {
      }
    }
  }

  /////////////// The heap of zones ///////////////

  datatype ZoneRec = ZoneRec(bufsize: nat, freelist: nat, count: nat)

  // What the link after position `i` of a list must be.
  function LinkAfter(s: seq<nat>, i: nat): nat {
    if i + 1 < |s| then s[i + 1] else 0
  }

  // The free list from its head pointer on.
  ghost predicate Threaded(mem: map<nat, nat>, head: nat, s: seq<nat>) {
    && head == (if s == [] then 0 else s[0])
    && forall i: nat | i < |s| :: s[i] in mem && mem[s[i]] == LinkAfter(s, i)
  }

  ghost predicate NoRepeats(s: seq<nat>) {
    forall i, j | 0 <= i < j < |s| :: s[i] != s[j]
  }

  // Two buffers do not overlap.
  predicate Apart(b: nat, bsize: nat, c: nat, csize: nat) {
    b + bsize <= c || c + csize <= b
  }

  // The heap: memory words, zones, and, for the specification, the zone of every
  // crammed buffer, the buffers handed out, and the free list of each zone.
  datatype Heap = Heap(
    mem: map<nat, nat>,
    zones: map<nat, ZoneRec>,
    owner: map<nat, nat>,
    live: set<nat>,
    free: map<nat, seq<nat>>)

  function Size(h: Heap, b: nat): nat {
    if b in h.owner && h.owner[b] in h.zones then h.zones[h.owner[b]].bufsize else 0
  }

  // The count is the length of the free list, which is threaded through buffers
  // of this zone that are not in use.
  ghost predicate ZoneOk(h: Heap, z: nat)
    requires z in h.zones
  {
    && z in h.free
    && h.zones[z].bufsize >= HEADER
    && h.zones[z].count == |h.free[z]|
    && NoRepeats(h.free[z])
    && Threaded(h.mem, h.zones[z].freelist, h.free[z])
    && forall b | b in h.free[z] :: b in h.owner && h.owner[b] == z && b !in h.live
  }

  // A buffer is free or live; the header of a live one names its zone.
  ghost predicate BufferOk(h: Heap, b: nat)
    requires b in h.owner
  {
    && b != 0 && h.owner[b] in h.zones && h.owner[b] in h.free
    && (b in h.live || b in h.free[h.owner[b]])
    && (b in h.live ==> b in h.mem && h.mem[b] == h.owner[b])
  }

  // Free and live buffers partition the crammed ones and never overlap.
  ghost predicate Ok(h: Heap) {
    && (forall z | z in h.zones :: ZoneOk(h, z))
    && h.live <= h.owner.Keys
    && (forall b | b in h.owner :: BufferOk(h, b))
    && (forall b, c | b in h.owner && c in h.owner && b != c :: Apart(b, Size(h, b), c, Size(h, c)))
  }

  // A buffer that may go on the free list of `z`: a live one of that zone, or new
  // memory apart from all buffers.
  ghost predicate Returnable(h: Heap, z: nat, b: nat) {
    && z in h.zones && z in h.free && b != 0
    && ((b in h.live && b in h.owner && h.owner[b] == z) ||
        (b !in h.owner && forall c | c in h.owner :: Apart(b, h.zones[z].bufsize, c, Size(h, c))))
  }

  ghost function Push(h: Heap, z: nat, b: nat): Heap
    requires z in h.zones && z in h.free
  {
    var rec := h.zones[z];
    Heap(h.mem[b := rec.freelist],
         h.zones[z := ZoneRec(rec.bufsize, b, rec.count + 1)],
         h.owner[b := z], h.live - {b}, h.free[z := [b] + h.free[z]])
  }

  ghost function Pop(h: Heap, z: nat): Heap
    requires Ok(h) && z in h.zones && h.free[z] != []
  {
    var rec, b := h.zones[z], h.free[z][0];
    Heap(h.mem[b := z],
         h.zones[z := ZoneRec(rec.bufsize, h.mem[b], rec.count - 1)],
         h.owner, h.live + {b}, h.free[z := h.free[z][1..]])
  }

  lemma PushZones(h: Heap, z: nat, b: nat, y: nat)
    requires Ok(h) && Returnable(h, z, b) && y in h.zones
    ensures ZoneOk(Push(h, z, b), y)
  {
    var h' := Push(h, z, b);
    assert ZoneOk(h, y);
    var s := h.free[y];
    assert b !in s;
    assert forall i | 0 <= i < |s| :: s[i] in s;
    if y == z {
      assert h'.free[z] == [b] + s;
      assert forall i | 0 < i <= |s| :: h'.free[z][i] == s[i - 1];
    }
  }

  lemma {:induction false} PushOk(h: Heap, z: nat, b: nat)
    requires Ok(h) && Returnable(h, z, b)
    ensures Ok(Push(h, z, b))
    ensures forall c | c in h.owner :: Size(Push(h, z, b), c) == Size(h, c)
    ensures Size(Push(h, z, b), b) == h.zones[z].bufsize
  {
    var h' := Push(h, z, b);
    forall y | y in h'.zones ensures ZoneOk(h', y) {
      PushZones(h, z, b, y);
    }
    forall c | c in h.owner ensures BufferOk(h', c) && Size(h', c) == Size(h, c) {
      assert BufferOk(h, c);
    }
    assert BufferOk(h', b);
    forall c, d | c in h'.owner && d in h'.owner && c != d ensures Apart(c, Size(h', c), d, Size(h', d)) {
      if c in h.owner && d in h.owner {
        assert Apart(c, Size(h, c), d, Size(h, d));
      }
    }
  }

  lemma PopZones(h: Heap, z: nat, y: nat)
    requires Ok(h) && z in h.zones && h.free[z] != [] && y in h.zones
    ensures ZoneOk(Pop(h, z), y)
  {
    assert ZoneOk(h, z) && ZoneOk(h, y);
    var s, b := h.free[y], h.free[z][0];
    assert b in h.free[z];
    assert forall i: nat | i < |s| :: s[i] in s;
    if y == z {
      PopThread(h.mem, h.zones[z].freelist, s, z);
    }
  }

  // The rest of a list stays threaded when its first word is overwritten.
  lemma PopThread(mem: map<nat, nat>, head: nat, s: seq<nat>, v: nat)
    requires Threaded(mem, head, s) && NoRepeats(s) && s != []
    ensures Threaded(mem[s[0] := v], mem[s[0]], s[1..]) && NoRepeats(s[1..])
  {
    var mem', s' := mem[s[0] := v], s[1..];
    assert mem[s[0]] == LinkAfter(s, 0);
    forall i: nat | i < |s'| ensures s'[i] in mem' && mem'[s'[i]] == LinkAfter(s', i) {
      assert s'[i] == s[i + 1] && s[i + 1] != s[0];
      assert mem[s[i + 1]] == LinkAfter(s, i + 1);
    }
  }

  lemma {:induction false} PopOk(h: Heap, z: nat)
    requires Ok(h) && z in h.zones && h.free[z] != []
    ensures Ok(Pop(h, z))
    ensures var b := h.free[z][0]; b in h.owner && b !in h.live && h.owner[b] == z && b != 0
  {
    var h', b := Pop(h, z), h.free[z][0];
    assert ZoneOk(h, z) && b in h.free[z] && BufferOk(h, b);
    forall y | y in h'.zones ensures ZoneOk(h', y) {
      PopZones(h, z, y);
    }
    forall c | c in h'.owner ensures BufferOk(h', c) {
      assert BufferOk(h, c);
      if h.owner[c] == z && c != b && c !in h.live {
        var i :| 0 <= i < |h.free[z]| && h.free[z][i] == c;
        assert h'.free[z][i - 1] == c;
      }
    }
    forall c, d | c in h'.owner && d in h'.owner && c != d ensures Apart(c, Size(h', c), d, Size(h', d)) {
      assert Apart(c, Size(h, c), d, Size(h, d));
    }
  }

  // What was allocated and freed again is where it was: allocation and freeing
  // are inverse on the free list.
  lemma PushPop(h: Heap, z: nat)
    requires Ok(h) && z in h.zones && h.free[z] != []
    ensures Returnable(Pop(h, z), z, h.free[z][0])
    ensures Push(Pop(h, z), z, h.free[z][0]) == h
  {
    var b, rec, p := h.free[z][0], h.zones[z], Pop(h, z);
    PopOk(h, z);
    assert ZoneOk(h, z) && rec.freelist == b && b in h.mem;
    assert z in h.free && rec.count > 0;
    hide Ok;
    hide ZoneOk;
    hide Threaded;
    hide NoRepeats;
    hide BufferOk;
    hide Size;
    assert p.zones == h.zones[z := ZoneRec(rec.bufsize, h.mem[b], rec.count - 1)] && p.mem == h.mem[b := z];
    assert p.owner == h.owner && p.live == h.live + {b} && p.free == h.free[z := h.free[z][1..]];
    hide Pop;
    assert [b] + h.free[z][1..] == h.free[z];
    var h' := Push(p, z, b);
    assert h'.mem == h.mem && h'.zones == h.zones;
    assert h'.owner == h.owner && h'.live == h.live && h'.free == h.free;
  }

  class Zones {
    var mem: map<nat, nat>
    var zones: map<nat, ZoneRec>
    ghost var owner: map<nat, nat>
    ghost var live: set<nat>
    ghost var free: map<nat, seq<nat>>

    ghost function View(): Heap
      reads this
    {
      Heap(mem, zones, owner, live, free)
    }

    // A heap without zones.
    constructor (mem: map<nat, nat>)
      ensures Ok(View()) && View() == Heap(mem, map[], map[], {}, map[])
    {
      this.mem, zones, owner, live, free := mem, map[], map[], {}, map[];
    }

    // zinit: a new zone without buffers; its count is taken to be 0.
    method AddZone(z: nat, size: nat) returns (ghost num: nat)
      requires Ok(View()) && z !in zones && z !in free
      modifies this
      ensures Ok(View()) && RightSize(size, num)
      ensures View() == old(View()).(zones := old(zones)[z := ZoneRec(num, 0, 0)], free := old(free)[z := []])
    {
      ghost var h := View();
      var bufsize := CalcBufsize(size);
      num := bufsize;
      zones := zones[z := ZoneRec(bufsize, 0, 0)];
      free := free[z := []];
      forall y | y in zones ensures ZoneOk(View(), y) {
        assert y != z ==> ZoneOk(h, y);
      }
      forall b | b in owner ensures BufferOk(View(), b) && Size(View(), b) == Size(h, b) {
        assert BufferOk(h, b);
      }
      forall b, c | b in owner && c in owner && b != c ensures Apart(b, Size(View(), b), c, Size(View(), c)) {
        assert Apart(b, Size(h, b), c, Size(h, c));
      }
    }

    // Put one buffer on the free list of its zone.
    method PushFree(z: nat, b: nat)
      requires Ok(View()) && Returnable(View(), z, b)
      modifies this
      ensures Ok(View()) && View() == Push(old(View()), z, b)
    {
      hide Ok;
      hide BufferOk;
      hide ZoneOk;
      PushOk(View(), z, b);
      mem := mem[b := zones[z].freelist];
      zones := zones[z := ZoneRec(zones[z].bufsize, b, zones[z].count + 1)];
      free := free[z := [b] + free[z]];
      owner := owner[b := z];
      live := live - {b};
    }

    // One turn of the loop of zcram.
    method CramOne(z: nat, m: nat, size: nat)
      requires Ok(View()) && z in zones && z in free && m != 0 && size >= zones[z].bufsize
      requires forall c | c in owner :: Apart(m, size, c, Size(View(), c))
      modifies this
      ensures Ok(View()) && View() == Push(old(View()), z, m) && live == old(live)
      ensures z in zones && z in free && zones[z].bufsize == old(zones[z].bufsize)
      ensures var d := old(zones[z].bufsize); forall c | c in owner :: Apart(m + d, size - d, c, Size(View(), c))
    {
      hide Ok;
      Room(View(), z, m, size);
      PushFree(z, m);
    }

    // zcram: chop a piece of memory into buffers for a zone.
    method Cram(z: nat, start: nat, len: nat)
      requires Ok(View()) && z in zones && start != 0
      requires forall c | c in owner :: Apart(start, len, c, Size(View(), c))
      modifies this
      ensures Ok(View()) && live == old(live)
      ensures z in old(zones) && z in old(free) && old(zones[z].bufsize) > 0
      ensures View() == Crammed(old(View()), z, start, old(zones[z].bufsize), len)
      ensures CutInto(old(View()), View(), z, start, old(zones[z].bufsize), Whole(len, old(zones[z].bufsize)))
    {
      hide Push;
      hide Threaded;
      hide NoRepeats;
      hide BufferOk;
      hide CutInto;
      hide Whole;
      assert ZoneOk(View(), z);
      var bufsize := zones[z].bufsize;
      var m: nat, size: nat := start, len;
      while size >= bufsize
        invariant Ok(View()) && z in zones && z in free && zones[z].bufsize == bufsize && live == old(live)
        invariant m != 0 && Crammed(View(), z, m, bufsize, size) == Crammed(old(View()), z, start, bufsize, len)
        invariant forall c | c in owner :: Apart(m, size, c, Size(View(), c))
        decreases size
      {
        CramOne(z, m, size);
        size, m := size - bufsize, m + bufsize;
      }
      CrammedIs(old(View()), z, start, bufsize, len, Whole(len, bufsize));
    }

    // remove_top
    method RemoveTop(z: nat) returns (p: nat)
      requires Ok(View()) && z in zones && z in free
      modifies this
      ensures Ok(View())
      ensures old(free[z]) == [] ==> p == 0 && View() == old(View())
      ensures old(free[z]) != [] ==> p == old(free[z])[0] + HEADER && View() == Pop(old(View()), z)
    {
      assert ZoneOk(View(), z);
      var top := zones[z].freelist;
      if free[z] != [] {
        PopOk(View(), z);
      }
      if top != 0 {
        zones := zones[z := ZoneRec(zones[z].bufsize, mem[top], zones[z].count - 1)];
        mem := mem[top := z];
        free := free[z := free[z][1..]];
        live := live + {top};
        return top + HEADER;
      }
      return 0;
    }

    // _zrefill; `supply` is the memory a refill obtained.
    method Refill(z: nat, supply: Option<(nat, nat)>)
      requires Ok(View()) && z in zones
      requires supply.Some? ==>
        supply.value.0 != 0 && forall c | c in owner :: Apart(supply.value.0, supply.value.1, c, Size(View(), c))
      modifies this
      ensures Ok(View()) && z in zones && z in free && live == old(live)
      ensures z in old(free) && old(zones[z].bufsize) > 0
      ensures View() == (if supply.Some? && old(zones[z].count) < 32
                         then Crammed(old(View()), z, supply.value.0, old(zones[z].bufsize), supply.value.1)
                         else old(View()))
      ensures supply.Some? && old(zones[z].count) < 32 ==>
        CutInto(old(View()), View(), z, supply.value.0, old(zones[z].bufsize), Whole(supply.value.1, old(zones[z].bufsize)))
      ensures zones[z].count == 0 <==> old(zones[z].count) == 0 && (supply.None? || supply.value.1 < old(zones[z].bufsize))
    {
      assert ZoneOk(View(), z);
      hide Ok;
      hide Whole;
      if supply.Some? && zones[z].count < 32 {
        ghost var bufsize := zones[z].bufsize;
        Cram(z, supply.value.0, supply.value.1);
        SomeBuffer(supply.value.1, bufsize, Whole(supply.value.1, bufsize));
      }
    }

    // zalloc; `supply` is what the refill of an auto-refilled zone obtained.
    method Alloc(z: nat, supply: Option<(nat, nat)>) returns (p: nat)
      requires Ok(View()) && z in zones
      requires supply.Some? ==>
        supply.value.0 != 0 && forall c | c in owner :: Apart(supply.value.0, supply.value.1, c, Size(View(), c))
      modifies this
      ensures Ok(View()) && z in zones
      ensures p != 0 ==>
        && p >= HEADER
        && var b := p - HEADER;
          b in owner && owner[b] == z && b !in old(live) && live == old(live) + {b} && b in mem && mem[b] == z
      ensures p == 0 ==> live == old(live) && zones[z].count == 0
      ensures p == 0 <==> old(zones[z].count) == 0 && (supply.None? || supply.value.1 < old(zones[z].bufsize))
    {
      hide CutInto;
      hide Crammed;
      hide Whole;
      Refill(z, supply);
      assert ZoneOk(View(), z);
      if free[z] != [] {
        PopOk(View(), z);
      }
      hide Ok;
      hide Threaded;
      p := RemoveTop(z);
    }

    // zfree of a live object: its buffer goes back on the list of the zone its
    // header names.
    method Free(obj: nat)
      requires Ok(View())
      requires obj != 0 ==> obj >= HEADER && obj - HEADER in live
      modifies this
      ensures Ok(View())
      ensures obj == 0 ==> View() == old(View())
      ensures obj != 0 ==>
        var b := obj - HEADER;
        b in old(owner) && old(owner[b]) in old(zones) && old(owner[b]) in old(free) &&
        View() == Push(old(View()), old(owner[b]), b)
    {
      if obj == 0 {
        return;
      }
      var b := obj - HEADER;
      assert BufferOk(View(), b);
      var z := mem[b];
      PushFree(z, b);
    }

    // The owner of a live object may write anything behind its header.
    method UserWrite(b: nat, a: nat, v: nat)
      requires Ok(View()) && b in live && b + HEADER <= a < b + Size(View(), b)
      modifies this`mem
      ensures Ok(View()) && mem == old(mem)[a := v]
    {
      ghost var h := View();
      mem := mem[a := v];
      forall c | c in owner ensures c != a {
        assert BufferOk(h, b) && BufferOk(h, c) && ZoneOk(h, owner[c]);
        assert c != b ==> Apart(b, Size(h, b), c, Size(h, c));
      }
      forall z | z in zones ensures ZoneOk(View(), z) {
        assert ZoneOk(h, z);
        assert forall i | 0 <= i < |free[z]| :: free[z][i] in free[z];
      }
      forall c | c in owner ensures BufferOk(View(), c) && Size(View(), c) == Size(h, c) {
        assert BufferOk(h, c);
      }
      forall c, d | c in owner && d in owner && c != d ensures Apart(c, Size(View(), c), d, Size(View(), d)) {
        assert Apart(c, Size(h, c), d, Size(h, d));
      }
    }
  }

  // The heap after a piece of memory has been cut into buffers for a zone.
  ghost function Crammed(h: Heap, z: nat, start: nat, d: nat, len: nat): (h': Heap)
    requires z in h.zones && z in h.free && d > 0
    ensures z in h'.zones && z in h'.free
    decreases len
  {
    if len < d then h else Crammed(Push(h, z, start), z, start + d, d, len - d)
  }

  // Where the i-th buffer of a piece of memory begins.
  function At(start: nat, d: nat, i: nat): nat {
    start + i * d
  }

  ghost function Starts(start: nat, d: nat, m: nat): set<nat> {
    set i: nat | i < m :: At(start, d, i)
  }

  // `h'` is `h` with `m` new buffers of `z`, one behind the other from `start` on:
  // they are the new buffers, all free, in front of the old free list and counted;
  // other zones and the live buffers elsewhere are as before.
  ghost predicate CutInto(h: Heap, h': Heap, z: nat, start: nat, d: nat, m: nat)
    requires z in h.zones && z in h.free
  {
    && h'.owner.Keys == h.owner.Keys + Starts(start, d, m)
    && (forall b | b in h'.owner :: h'.owner[b] == if b in Starts(start, d, m) then z else h.owner[b])
    && h'.live == h.live - Starts(start, d, m)
    && h'.free.Keys == h.free.Keys && (forall y | y in h.free && y != z :: h'.free[y] == h.free[y])
    && |h'.free[z]| == m + |h.free[z]| && h'.free[z][m..] == h.free[z]
    && (forall j: nat | j < m :: h'.free[z][j] == At(start, d, m - 1 - j))
    && h'.zones.Keys == h.zones.Keys && (forall y | y in h.zones && y != z :: h'.zones[y] == h.zones[y])
    && h'.zones[z].bufsize == h.zones[z].bufsize && h'.zones[z].count == h.zones[z].count + m
  }

  lemma AtNext(start: nat, d: nat, i: nat)
    ensures At(start, d, i + 1) == At(start + d, d, i) && At(start, d, 0) == start
  {
    assert (i + 1) * d == i * d + d;
  }

  lemma {:induction false} StartsNext(start: nat, d: nat, m: nat)
    ensures Starts(start, d, m + 1) == {start} + Starts(start + d, d, m)
  {
    AtNext(start, d, 0);
    forall i: nat | i < m + 1 ensures At(start, d, i) in {start} + Starts(start + d, d, m) {
      if i > 0 {
        AtNext(start, d, i - 1);
      }
    }
    var next := start + d;
    forall i: nat | i < m ensures At(next, d, i) in Starts(start, d, m + 1) {
      AtNext(start, d, i);
    }
    assert At(start, d, 0) in Starts(start, d, m + 1);
  }

  // Cramming cuts the memory into as many whole buffers as it holds.
  lemma {:induction false} CrammedIs(h: Heap, z: nat, start: nat, d: nat, len: nat, m: nat)
    requires z in h.zones && z in h.free && d > 0 && m * d <= len < (m + 1) * d
    ensures CutInto(h, Crammed(h, z, start, d, len), z, start, d, m)
    decreases m
  {
    hide CutInto;
    if m == 0 {
      CutIntoNothing(h, z, start, d);
    } else {
      assert m * d == (m - 1) * d + d && (m - 1) * d >= 0 && (m + 1) * d == m * d + d;
      var h1 := Push(h, z, start);
      CrammedIs(h1, z, start + d, d, len - d, m - 1);
      CutStep(h, h1, Crammed(h1, z, start + d, d, len - d), z, start, d, m - 1);
    }
  }

  lemma CutIntoNothing(h: Heap, z: nat, start: nat, d: nat)
    requires z in h.zones && z in h.free
    ensures CutInto(h, h, z, start, d, 0)
  {
    assert Starts(start, d, 0) == {};
  }

  // How many whole buffers of size `d` a piece of memory holds.
  function Whole(len: nat, d: nat): (m: nat)
    requires d > 0
    ensures m * d <= len < (m + 1) * d
  {
    assert len == len / d * d + len % d && (len / d + 1) * d == len / d * d + d;
    len / d
  }

  lemma SomeBuffer(len: nat, d: nat, m: nat)
    requires m * d <= len < (m + 1) * d
    ensures m == 0 <==> len < d
  {
    if m > 0 {
      assert m * d == (m - 1) * d + d && (m - 1) * d >= 0;
    }
  }

  lemma {:induction false} CutStep(h: Heap, h1: Heap, h': Heap, z: nat, start: nat, d: nat, m: nat)
    requires z in h.zones && z in h.free && h1 == Push(h, z, start) && CutInto(h1, h', z, start + d, d, m)
    ensures CutInto(h, h', z, start, d, m + 1)
  {
    StartsNext(start, d, m);
    hide Starts;
    assert h'.free[z][m..][0] == start && h'.free[z][m..][1..] == h.free[z];
    assert h'.free[z][m + 1..] == h'.free[z][m..][1..];
    forall j: nat | j < m + 1 ensures h'.free[z][j] == At(start, d, m - j) {
      if j < m {
        AtNext(start, d, m - 1 - j);
      } else {
        AtNext(start, d, 0);
      }
    }
  }

  // There is room for one more buffer at the start of a piece of memory that is
  // apart from all buffers, and what is left of the piece is still apart.
  lemma Room(h: Heap, z: nat, m: nat, size: nat)
    requires Ok(h) && z in h.zones && m != 0 && size >= h.zones[z].bufsize
    requires forall c | c in h.owner :: Apart(m, size, c, Size(h, c))
    ensures Returnable(h, z, m) && m !in h.owner && m !in h.live
    ensures var h', d := Push(h, z, m), h.zones[z].bufsize;
      forall c | c in h'.owner :: Apart(m + d, size - d, c, Size(h', c))
  {
    assert ZoneOk(h, z);
    forall c | c in h.owner ensures c != m {
      assert BufferOk(h, c) && ZoneOk(h, h.owner[c]);
      assert Apart(m, size, c, Size(h, c));
    }
    PushOk(h, z, m);
  }
}
