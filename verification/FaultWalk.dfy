// Resolving page faults through nested region mappers (system/vm/rm_pager.c,
// system/vm/region_mapper.c).
module FaultWalk {
  import opened Basics
  import opened RegionMapper

  datatype Outcome =
    | Ok            // VM_OK
    | Failure       // VM_FAILURE
    | Segfault      // VM_SEGFAULT
    | NullMapper    // the walk goes on with a null region mapper

  // struct page_fault
  datatype Fault = Fault(offset: nat, ptr: nat, size: nat, prot: nat)

  predicate Contains(r: Region, ptr: nat) {
    r.offset <= ptr < End(r)
  }

  /////////////// What an address means ///////////////

  // The region of a mapper that contains `ptr`, if there is one.
  function Child(rs: seq<Region>, ptr: nat): (i: Option<nat>)
    ensures i.Some? ==> i.value < |rs| && Contains(rs[i.value], ptr)
    ensures i.None? ==> forall k | 0 <= k < |rs| :: !Contains(rs[k], ptr)
  {
    if rs == [] then None
    else if Contains(rs[|rs| - 1], ptr) then Some(|rs| - 1)
    else Child(rs[..|rs| - 1], ptr)
  }

  // Is `ptr` covered at each level down to a dataspace?
  predicate Covered(obj: Object, ptr: nat)
    decreases obj
  {
    match obj
    case Undefined => false
    case Dataspace(_, _) => true
    case Mapper(_, rs) =>
      var i := Child(rs, ptr);
      i.Some? && Covered(rs[i.value].target, ptr - rs[i.value].offset)
  }

  // The page frame behind a covered address.
  function Frame(obj: Object, ptr: nat): Option<nat>
    decreases obj
  {
    match obj
    case Undefined => None
    case Dataspace(_, pages) => if ptr / PAGE < |pages| then Some(pages[ptr / PAGE]) else None
    case Mapper(_, rs) =>
      var i := Child(rs, ptr);
      if i.None? then None else Frame(rs[i.value].target, ptr - rs[i.value].offset)
  }

  // Page-aligned nests: layouts as rm_insert keeps them, and dataspaces that
  // have a frame for each page of their region.
  ghost predicate Nest(obj: Object)
    decreases obj
  {
    match obj
    case Undefined => true
    case Dataspace(size, pages) => size == |pages| * PAGE
    case Mapper(size, rs) =>
      && size < WORD32 && Layout(rs, size)
      && forall i | 0 <= i < |rs| ::
          && rs[i].offset % PAGE == 0 && rs[i].size % PAGE == 0
          && (rs[i].target.Dataspace? ==> rs[i].target.size == rs[i].size)
          && Nest(rs[i].target)
  }

  function Min(a: nat, b: nat): nat {
    if a < b then a else b
  }

  // Is `a` inside the window [offset, offset + size) and inside every window
  // below it on the way to the dataspace that holds `ptr`?
  predicate Enclosed(obj: Object, offset: nat, size: nat, ptr: nat, a: nat)
    decreases obj
  {
    && offset <= a < offset + size
    && (obj.Mapper? ==>
          var i := Child(obj.children, ptr);
          i.Some? ==>
            var r := obj.children[i.value];
            r.offset <= size && Enclosed(r.target, offset + r.offset, Min(size - r.offset, r.size), ptr - r.offset, a))
  }

  /////////////// The walk, in place ///////////////

  // A protection domain; pd_enter updates its page table.
  class Domain {
    const begin: nat
    const end: nat
    var pmap: map<nat, (nat, nat)>

    constructor (begin: nat, end: nat)
      ensures this.begin == begin && this.end == end && pmap == map[]
    {
      this.begin, this.end, pmap := begin, end, map[];
    }

    // dataspace_map: enter the pages of a dataspace from `base` on.
    method MapPages(ds: Object, base: nat, size: nat, prot: nat)
      requires ds.Dataspace?
      modifies this
      ensures pmap == Entered(old(pmap), ds.pages, base, prot, PageCount(ds, size))
    {
      var n := PageCount(ds, size);
      var i, b := 0, base;
      while i < n
        invariant 0 <= i <= n && b == base + i * PAGE
        invariant pmap == Entered(old(pmap), ds.pages, base, prot, i)
      {
        pmap := pmap[b := (ds.pages[i], prot)];
        i, b := i + 1, b + PAGE;
      }
    }
  }

  function PageCount(ds: Object, size: nat): (n: nat)
    requires ds.Dataspace?
    ensures n <= |ds.pages| && n * PAGE <= size
  {
    Min(Min(size, ds.size) / PAGE, |ds.pages|)
  }

  // A page table after the first `n` pages have been entered from `base` on.
  function Entered(pmap: map<nat, (nat, nat)>, pages: seq<nat>, base: nat, prot: nat, n: nat): map<nat, (nat, nat)>
    requires n <= |pages|
  {
    if n == 0 then pmap else Entered(pmap, pages, base, prot, n - 1)[base + (n - 1) * PAGE := (pages[n - 1], prot)]
  }

  lemma {:induction false} EnteredAt(pmap: map<nat, (nat, nat)>, pages: seq<nat>, base: nat, prot: nat, n: nat, i: nat)
    requires i < n <= |pages|
    ensures var a, m := base + i * PAGE, Entered(pmap, pages, base, prot, n); a in m && m[a] == (pages[i], prot)
  {
    if i < n - 1 {
      EnteredAt(pmap, pages, base, prot, n - 1, i);
    }
  }

  lemma {:induction false} EnteredOnly(pmap: map<nat, (nat, nat)>, pages: seq<nat>, base: nat, prot: nat, n: nat, a: nat)
    requires n <= |pages| && !(base <= a < base + n * PAGE)
    ensures var m := Entered(pmap, pages, base, prot, n); (a in m <==> a in pmap) && (a in m ==> m[a] == pmap[a])
  {
    if n > 0 {
      EnteredOnly(pmap, pages, base, prot, n - 1, a);
    }
  }

  // rm_ll_lookup: the region that contains the faulting pointer, in a sorted
  // list, with the fault narrowed to it; no object if there is none or it is
  // undefined.  The sums are taken in 32 bits and do not wrap around in a layout.
  method Lookup(rs: seq<Region>, size: nat, fault: Fault) returns (target: Option<Object>, narrowed: Fault)
    requires Layout(rs, size) && size < WORD32 && fault.ptr < fault.size && fault.offset + fault.ptr < WORD32
    ensures match Child(rs, fault.ptr)
      case None => target == None && narrowed == fault
      case Some(i) =>
        if rs[i].target.Undefined? then target == None && narrowed == fault
        else
          && target == Some(rs[i].target)
          && narrowed == Narrow(fault, rs[i])
  {
    var k := 0;
    while k < |rs|
      invariant 0 <= k <= |rs|
      invariant forall j | 0 <= j < k :: End(rs[j]) <= fault.ptr
    {
      var r := rs[k];
      if fault.ptr < r.offset {
        Missed(rs, size, fault.ptr, k);
        return None, fault;
      }
      if fault.ptr < (r.offset + r.size) % WORD32 {
        Hit(rs, size, fault.ptr, k);
        if r.target.Undefined? {
          return None, fault;
        }
        narrowed := Fault((fault.offset + r.offset) % WORD32, fault.ptr - r.offset, fault.size - r.offset, fault.prot);
        if narrowed.size > r.size {
          narrowed := narrowed.(size := r.size);
        }
        return Some(r.target), narrowed;
      }
      k := k + 1;
    }
    return None, fault;
  }

  function Narrow(fault: Fault, r: Region): Fault
    requires Contains(r, fault.ptr) && fault.ptr < fault.size
  {
    Fault(fault.offset + r.offset, fault.ptr - r.offset, Min(fault.size - r.offset, r.size), fault.prot)
  }

  lemma Missed(rs: seq<Region>, size: nat, ptr: nat, k: nat)
    requires Layout(rs, size) && k < |rs| && ptr < rs[k].offset && forall j | 0 <= j < k :: End(rs[j]) <= ptr
    ensures Child(rs, ptr) == None
  {
    forall j | 0 <= j < |rs| ensures !Contains(rs[j], ptr) {
      if k < j {
        assert End(rs[k]) <= rs[j].offset;
      }
    }
  }

  lemma Hit(rs: seq<Region>, size: nat, ptr: nat, k: nat)
    requires Layout(rs, size) && k < |rs| && Contains(rs[k], ptr)
    ensures Child(rs, ptr) == Some(k)
  {
    var i := Child(rs, ptr).value;
  }

  // The size of a domain's window: its extent rounded up to pages, in 32 bits.
  function WindowSize(begin: nat, end: nat): nat {
    var size := ((end - begin) % WORD32 + PAGE - 1) % WORD32;
    size - size % PAGE
  }

  // What that window is: the least whole number of pages that holds the extent,
  // unless rounding up wraps around, which leaves no window at all.
  lemma WindowMeans(begin: nat, end: nat)
    ensures var e, w := (end - begin) % WORD32, WindowSize(begin, end);
      && w % PAGE == 0
      && (e <= WORD32 - PAGE ==> e <= w < e + PAGE)
      && (e > WORD32 - PAGE ==> w == 0)
  {
  }

  // An address is outside the window exactly when it is before the domain or its
  // page starts at or behind the end.
  lemma {:induction false} OutsideIff(begin: nat, end: nat, va: nat)
    requires begin % PAGE == 0 && begin <= end < WORD32 && end - begin <= WORD32 - PAGE && begin <= va
    ensures va - begin >= WindowSize(begin, end) <==> va - va % PAGE >= end
    ensures end % PAGE == 0 ==> (va - begin >= WindowSize(begin, end) <==> va >= end)
  {
    WindowMeans(begin, end);
    var w, p := WindowSize(begin, end), va - va % PAGE;
    hide WindowSize;
    assert (end - begin) % WORD32 == end - begin;
    AlignedSums(va - begin, begin);
    assert p - begin == (va - begin) / PAGE * PAGE && w == w / PAGE * PAGE;
    if va - begin >= w {
      assert (va - begin) / PAGE >= w / PAGE;
    }
  }

  // A domain that reaches to the last byte of the address space has no window.
  lemma WindowCanVanish()
    ensures WindowSize(0, 0xFFFF_FFFF) == 0
  {
  }

  // An address is inside the window of `fault` and all windows below exactly when it
  // is inside every window from the first on, with the same frame behind it.
  ghost predicate SameWindows(rm: Object, first: Fault, cur: Object, fault: Fault) {
    forall a: nat ::
      && (Enclosed(cur, fault.offset, fault.size, fault.ptr, a) <==> Enclosed(rm, first.offset, first.size, first.ptr, a))
      && (Enclosed(rm, first.offset, first.size, first.ptr, a) ==>
            first.offset <= a && fault.offset <= a && Frame(cur, a - fault.offset) == Frame(rm, a - first.offset))
  }

  // How far the walk for `va` has come: the fault still denotes the same address,
  // in the same windows.
  ghost predicate Reached(rm: Object, first: Fault, cur: Object, fault: Fault) {
    && Nest(cur) && Aligned(fault) && fault.ptr < fault.size && !cur.Undefined?
    && fault.offset + fault.ptr == first.offset + first.ptr && fault.prot == first.prot
    && (cur.Dataspace? ==> fault.size <= cur.size)
    && Covered(cur, fault.ptr) == Covered(rm, first.ptr) && Frame(cur, fault.ptr) == Frame(rm, first.ptr)
    && SameWindows(rm, first, cur, fault)
  }

  // The dispatch loop: walk down until a dataspace or a null mapper is reached.
  method Walk(rm: Object, first: Fault) returns (leaf: Option<Object>, fault: Fault)
    requires rm.Mapper? && Nest(rm) && Aligned(first) && first.ptr < first.size && first.offset + first.ptr < WORD32
    ensures leaf.Some? <==> Covered(rm, first.ptr)
    ensures leaf.Some? ==> leaf.value.Dataspace? && Reached(rm, first, leaf.value, fault)
  {
    var cur := rm;
    fault := first;
    assert SameWindows(rm, first, cur, fault) by {
      forall a: nat ensures Enclosed(rm, first.offset, first.size, first.ptr, a) ==> first.offset <= a {
        Inside(rm, first, a);
      }
    }
    while cur.Mapper?
      invariant Reached(rm, first, cur, fault)
      decreases cur
    {
      var target, narrowed := Lookup(cur.children, cur.size, fault);
      if target.None? {
        assert !Covered(cur, fault.ptr);
        return None, fault;
      }
      NarrowStep(rm, first, cur, fault);
      cur, fault := target.value, narrowed;
    }
    leaf := Some(cur);
  }

  // rm_pagefault.  An address outside the window is a segmentation fault; for a
  // covered address exactly the pages inside every enclosing window are entered,
  // its own among them; for any other address the walk arrives at a null region
  // mapper.  VM_FAILURE is never returned.
  method PageFault(pd: Domain, rm: Object, va: nat, prot: nat) returns (r: Outcome)
    requires rm.Mapper? && Nest(rm) && pd.begin % PAGE == 0 && va < WORD32
    modifies pd
    ensures va < pd.begin || va - pd.begin >= WindowSize(pd.begin, pd.end) ==>
      r == Segfault && pd.pmap == old(pd.pmap)
    ensures pd.begin <= va && va - pd.begin < WindowSize(pd.begin, pd.end) ==>
      var ptr := va - pd.begin;
      && (!Covered(rm, ptr) ==> r == NullMapper && pd.pmap == old(pd.pmap))
      && (Covered(rm, ptr) ==>
            && r == Ok && Resolved(pd.pmap, rm, ptr, va, prot)
            && (forall a: nat | Enclosed(rm, pd.begin, WindowSize(pd.begin, pd.end), ptr, a) && a % PAGE == 0 ::
                  Resolved(pd.pmap, rm, a - pd.begin, a, prot))
            && forall a: nat | !Enclosed(rm, pd.begin, WindowSize(pd.begin, pd.end), ptr, a) ::
                Same(old(pd.pmap), pd.pmap, a))
    ensures pd.begin <= pd.end < WORD32 && pd.end - pd.begin <= WORD32 - PAGE ==>
      (r == Segfault <==> va < pd.begin || va - va % PAGE >= pd.end)
    ensures pd.begin <= pd.end < WORD32 && pd.end - pd.begin > WORD32 - PAGE ==> r == Segfault
  {
    hide Covered;
    hide Nest;
    hide Enclosed;
    hide Frame;
    WindowMeans(pd.begin, pd.end);
    if va < pd.begin {
      return Segfault;
    }
    if pd.begin <= pd.end < WORD32 && pd.end - pd.begin <= WORD32 - PAGE {
      OutsideIff(pd.begin, pd.end, va);
    }
    hide WindowSize;
    var first := Fault(pd.begin, va - pd.begin, WindowSize(pd.begin, pd.end), prot);
    if first.ptr >= first.size {
      return Segfault;
    }
    var leaf, fault := Walk(rm, first);
    if leaf.None? {
      return NullMapper;
    }
    pd.MapPages(leaf.value, fault.offset, fault.size, fault.prot);
    LeafMapped(rm, first, leaf.value, fault, old(pd.pmap));
    return Ok;
  }

  // The page table maps the page of `va` to the frame behind it.
  ghost predicate Resolved(pmap: map<nat, (nat, nat)>, rm: Object, ptr: nat, va: nat, prot: nat) {
    var page := va - va % PAGE;
    Frame(rm, ptr).Some? && page in pmap && pmap[page] == (Frame(rm, ptr).value, prot)
  }

  ghost predicate Same(pmap: map<nat, (nat, nat)>, pmap': map<nat, (nat, nat)>, a: nat) {
    (a in pmap' <==> a in pmap) && (a in pmap' ==> pmap'[a] == pmap[a])
  }

  // Entering the pages of the leaf resolves the fault and stays inside all windows.
  lemma LeafMapped(rm: Object, first: Fault, ds: Object, fault: Fault, pmap: map<nat, (nat, nat)>)
    requires ds.Dataspace? && Reached(rm, first, ds, fault)
    ensures var pmap' := Entered(pmap, ds.pages, fault.offset, fault.prot, PageCount(ds, fault.size));
      && Resolved(pmap', rm, first.ptr, first.offset + first.ptr, first.prot)
      && (forall a: nat | Enclosed(rm, first.offset, first.size, first.ptr, a) && a % PAGE == 0 ::
            Resolved(pmap', rm, a - first.offset, a, first.prot))
      && forall a: nat | !Enclosed(rm, first.offset, first.size, first.ptr, a) :: Same(pmap, pmap', a)
  {
    var n := PageCount(ds, fault.size);
    LeafPage(ds, fault, first.offset + first.ptr);
    EnteredAt(pmap, ds.pages, fault.offset, fault.prot, n, fault.ptr / PAGE);
    forall a: nat | Enclosed(rm, first.offset, first.size, first.ptr, a) && a % PAGE == 0
      ensures Resolved(Entered(pmap, ds.pages, fault.offset, fault.prot, n), rm, a - first.offset, a, first.prot)
    {
      assert Enclosed(ds, fault.offset, fault.size, fault.ptr, a);
      var f := fault.(ptr := a - fault.offset);
      LeafPage(ds, f, a);
      EnteredAt(pmap, ds.pages, fault.offset, fault.prot, n, f.ptr / PAGE);
    }
    forall a: nat | !Enclosed(rm, first.offset, first.size, first.ptr, a)
      ensures Same(pmap, Entered(pmap, ds.pages, fault.offset, fault.prot, n), a)
    {
      assert !Enclosed(ds, fault.offset, fault.size, fault.ptr, a);
      EnteredOnly(pmap, ds.pages, fault.offset, fault.prot, n, a);
    }
  }

  ghost predicate Aligned(fault: Fault) {
    fault.offset % PAGE == 0 && fault.size % PAGE == 0
  }

  // An address is in the windows from here on exactly when it is in those from the
  // child on, and has the same frame there.
  lemma {:induction false} OneWindow(cur: Object, fault: Fault, i: nat, a: nat)
    requires cur.Mapper? && Layout(cur.children, cur.size) && fault.ptr < fault.size
    requires Child(cur.children, fault.ptr) == Some(i)
    ensures var r := cur.children[i];
      var f := Narrow(fault, r);
      && (Enclosed(cur, fault.offset, fault.size, fault.ptr, a) <==> Enclosed(r.target, f.offset, f.size, f.ptr, a))
      && (Enclosed(r.target, f.offset, f.size, f.ptr, a) ==>
            fault.offset <= f.offset <= a && Frame(cur, a - fault.offset) == Frame(r.target, a - f.offset))
  {
    var r := cur.children[i];
    var f := Narrow(fault, r);
    if Enclosed(r.target, f.offset, f.size, f.ptr, a) {
      assert f.offset <= a < f.offset + f.size;
      Hit(cur.children, cur.size, a - fault.offset, i);
    }
  }

  // One level down: the narrowed fault denotes the same address, in a smaller window.
  lemma {:induction false} NarrowStep(rm: Object, first: Fault, cur: Object, fault: Fault)
    requires cur.Mapper? && Reached(rm, first, cur, fault)
    requires Child(cur.children, fault.ptr).Some?
    requires !cur.children[Child(cur.children, fault.ptr).value].target.Undefined?
    ensures var r := cur.children[Child(cur.children, fault.ptr).value];
      Reached(rm, first, r.target, Narrow(fault, r))
  {
    var i := Child(cur.children, fault.ptr).value;
    var r := cur.children[i];
    var f := Narrow(fault, r);
    AlignedSums(fault.offset, r.offset);
    AlignedSums(fault.size - r.offset, r.offset);
    NarrowWindows(rm, first, cur, fault, i);
    hide SameWindows;
  }

  lemma {:induction false} NarrowWindows(rm: Object, first: Fault, cur: Object, fault: Fault, i: nat)
    requires cur.Mapper? && Layout(cur.children, cur.size) && fault.ptr < fault.size && SameWindows(rm, first, cur, fault)
    requires Child(cur.children, fault.ptr) == Some(i)
    ensures SameWindows(rm, first, cur.children[i].target, Narrow(fault, cur.children[i]))
  {
    hide Enclosed;
    hide Frame;
    hide Layout;
    var r := cur.children[i];
    var f := Narrow(fault, r);
    forall a: nat
      ensures Enclosed(r.target, f.offset, f.size, f.ptr, a) <==> Enclosed(rm, first.offset, first.size, first.ptr, a)
      ensures Enclosed(rm, first.offset, first.size, first.ptr, a) ==>
                first.offset <= a && f.offset <= a && Frame(r.target, a - f.offset) == Frame(rm, a - first.offset)
    {
      OneWindow(cur, fault, i, a);
    }
  }

  lemma Inside(obj: Object, fault: Fault, a: nat)
    ensures Enclosed(obj, fault.offset, fault.size, fault.ptr, a) ==> fault.offset <= a < fault.offset + fault.size
  {
  }

  lemma AlignedSums(a: nat, b: nat)
    requires b % PAGE == 0
    ensures (a + b) % PAGE == a % PAGE
  {
  }

  // The faulting page is among those entered for the leaf.
  lemma LeafPage(ds: Object, fault: Fault, va: nat)
    requires ds.Dataspace? && Nest(ds) && Aligned(fault) && fault.ptr < fault.size && fault.ptr < ds.size
    requires va == fault.offset + fault.ptr
    ensures fault.ptr / PAGE < PageCount(ds, fault.size)
    ensures va - va % PAGE == fault.offset + fault.ptr / PAGE * PAGE
  {
    PageOf(fault.ptr, fault.size);
    PageOf(fault.ptr, ds.size);
    assert ds.size / PAGE == |ds.pages|;
    AlignedSums(fault.ptr, fault.offset);
  }

  lemma PageOf(ptr: nat, size: nat)
    requires ptr < size && size % PAGE == 0
    ensures ptr / PAGE < size / PAGE
  {
  }
}
