// The kernel address bump allocator (system/vm/kmem_util2.c): page frames go
// into the first free entries of the kernel's dataspace, and the addresses
// behind those entries are handed out.
module KernelGrow {
  import opened Basics
  import opened PhysPages

  // The index of the first null entry.
  function FirstFree(pages: seq<nat>): (i: nat)
    ensures i <= |pages|
    ensures i < |pages| ==> pages[i] == 0
    ensures forall j | 0 <= j < i :: pages[j] != 0
  {
    if pages == [] || pages[0] == 0 then 0 else 1 + FirstFree(pages[1..])
  }

  // The entries after `frames` have been stored from the first free one on.
  function Stored(pages: seq<nat>, frames: seq<nat>): seq<nat>
    requires FirstFree(pages) + |frames| <= |pages|
  {
    pages[..FirstFree(pages)] + frames + pages[FirstFree(pages) + |frames|..]
  }

  // The non-null entries form a prefix.
  ghost predicate Prefix(pages: seq<nat>) {
    forall j | FirstFree(pages) <= j < |pages| :: pages[j] == 0
  }

  // What the kernel's region mapper has as its first region.
  datatype First = NoRegion | OtherRegion | DataspaceRegion(offset: nat)

  class KernelSpace {
    const begin: nat                 // pd_begin
    const first: First
    const pages: array<nat>          // ds_pages of the first region
    const phys: Allocator
    var pmap: map<nat, nat>

    constructor (begin: nat, first: First, pages: array<nat>, phys: Allocator)
      ensures this.begin == begin && this.first == first && this.pages == pages && this.phys == phys && pmap == map[]
    {
      this.begin, this.first, this.pages, this.phys, pmap := begin, first, pages, phys, map[];
    }

    ghost predicate Valid()
      reads phys, phys.words
    {
      phys.Valid() && pages as object != phys.words
    }

    // One turn of the loop of grow_critical: take a frame, store and enter it.
    method TakeOne(i: nat, va: nat) returns (page: Option<nat>)
      requires Valid() && i < pages.Length
      modifies this`pmap, pages, phys.words
      ensures Valid()
      ensures page.Some? ==>
        && pages[..] == old(pages[..])[i := page.value] && pmap == old(pmap)[va := page.value]
        && AllFree(phys.maps, old(PairsInUse()), [page.value]) && |PairsInUse()| == |old(PairsInUse())| + 1 && old(PairsInUse()) <= PairsInUse()
      ensures page.None? ==>
        pages[..] == old(pages[..]) && pmap == old(pmap) && PairsInUse() == old(PairsInUse()) && Exhausted()
    {
      hide Slices;
      ghost var k, l;
      page, k, l := phys.Alloc();
      if page.Some? {
        pages[i] := page.value;
        pmap := pmap[va := page.value];
      }
    }

    // The loop of grow_critical, from entry `start` and address `addr` on.
    method TakeFrames(start: nat, addr: nat, n: int) returns (size: nat, ghost frames: seq<nat>)
      requires Valid() && start < pages.Length
      modifies this`pmap, pages, phys.words
      ensures Valid() && size == |frames| * PAGE && start + |frames| <= pages.Length
      ensures pages[..] == old(pages[..start]) + frames + old(pages[..])[start + |frames|..]
      ensures |PairsInUse()| == |old(PairsInUse())| + |frames| && old(PairsInUse()) <= PairsInUse()
      ensures AllFree(phys.maps, old(PairsInUse()), frames) && Mapped(pmap, frames, addr)
      ensures |frames| < n && start + |frames| < pages.Length ==> Exhausted()
      ensures |frames| <= (if n > 0 then n else 0) && SameElsewhere(old(pmap), pmap, addr, |frames|)
    {
      hide UsedPairs;
      hide Slices;
      hide AllFree;
      hide Mapped;
      hide Tracked;
      var i, j, va := start, 0, addr;
      size, frames := 0, [];
      assert Mapped(pmap, [], addr) && AllFree(phys.maps, PairsInUse(), []) by {
        NothingTaken(pmap, phys.maps, PairsInUse(), addr);
      }
      var more := true;
      while j < n && i != pages.Length && more
        invariant j <= (if n > 0 then n else 0) && SameElsewhere(old(pmap), pmap, addr, j)
        invariant j == |frames| && i == start + j <= pages.Length && va == addr + j * PAGE && size == j * PAGE
        invariant Valid()
        invariant pages[..] == old(pages[..start]) + frames + old(pages[..])[i..]
        invariant |PairsInUse()| == |old(PairsInUse())| + |frames| && old(PairsInUse()) <= PairsInUse()
        invariant AllFree(phys.maps, old(PairsInUse()), frames) && Mapped(pmap, frames, addr)
        invariant !more ==> Exhausted()
        decreases n - j, more
      {
        ghost var before, entered, used := pages[..], pmap, PairsInUse();
        var page := TakeOne(i, va);
        if page.None? {
          more := false;
        } else {
          StoreNext(old(pages[..]), before, frames, start, i, page.value);
          MappedNext(entered, frames, addr, page.value);
          FreeNext(phys.maps, old(PairsInUse()), used, frames, page.value);
          frames := frames + [page.value];
          i, j, va, size := i + 1, j + 1, va + PAGE, size + PAGE;
        }
      }
    }

    // grow_critical: `frames` are the page frames it took, also when it could
    // not get as many as it was asked for.
    method Grow(n: int) returns (ok: bool, addr: nat, size: nat, ghost frames: seq<nat>)
      requires Valid()
      modifies this`pmap, pages, phys.words
      ensures Valid()
      ensures FirstFree(old(pages[..])) + |frames| <= pages.Length && pages[..] == Stored(old(pages[..]), frames)
      ensures |PairsInUse()| == |old(PairsInUse())| + |frames| && old(PairsInUse()) <= PairsInUse()
      ensures AllFree(phys.maps, old(PairsInUse()), frames) && (ok ==> Mapped(pmap, frames, addr))
      ensures ok <==> frames != []
      ensures ok ==>
        && first.DataspaceRegion?
        && addr == begin + first.offset + FirstFree(old(pages[..])) * PAGE && size == |frames| * PAGE
        && addr + size <= begin + first.offset + pages.Length * PAGE
        && (begin % PAGE == 0 && first.offset % PAGE == 0 ==> addr % PAGE == 0 && size % PAGE == 0)
      ensures |frames| <= (if n > 0 then n else 0)
      ensures SameElsewhere(old(pmap), pmap, addr, |frames|)
      ensures first.DataspaceRegion? && |frames| < n && FirstFree(old(pages[..])) + |frames| < pages.Length ==> Exhausted()
    {
      hide UsedPairs;
      hide Slices;
      hide Mapped;
      hide AllFree;
      hide Tracked;
      ok, addr, size, frames := false, 0, 0, [];
      NothingTaken(pmap, phys.maps, PairsInUse(), 0);
      assert Stored(pages[..], []) == pages[..];
      if !first.DataspaceRegion? {
        return;
      }
      var i := 0;
      while i < pages.Length && pages[i] != 0
        invariant 0 <= i <= pages.Length && forall j | 0 <= j < i :: pages[j] != 0
      {
        i := i + 1;
      }
      FirstFreeIs(pages[..], i);
      if i >= pages.Length {
        return;
      }
      addr := begin + first.offset + i * PAGE;
      size, frames := TakeFrames(i, addr, n);
      ok := size != 0;
    }

    // Any number of calls: when frame 0 is not free in the pool, the address ranges
    // handed out are disjoint, in ascending order.
    method GrowMany(ns: seq<int>) returns (ranges: seq<Option<(nat, nat)>>)
      requires Valid() && Prefix(pages[..]) && !FrameZeroFree(phys.maps, PairsInUse())
      modifies this`pmap, pages, phys.words
      ensures Valid() && Prefix(pages[..]) && |ranges| == |ns|
      ensures forall a, b | 0 <= a < b < |ranges| && ranges[a].Some? && ranges[b].Some? ::
                ranges[a].value.0 + ranges[a].value.1 <= ranges[b].value.0
      ensures forall a | 0 <= a < |ranges| && ranges[a].Some? ::
                ranges[a].value.1 > 0 && ranges[a].value.1 % PAGE == 0
    {
      hide UsedPairs;
      hide Slices;
      hide Mapped;
      hide Tracked;
      hide AllFree;
      hide FrameZeroFree;
      ghost var states: seq<seq<nat>>, taken: seq<seq<nat>> := [pages[..]], [];
      ranges := [];
      ghost var from := begin + (if first.DataspaceRegion? then first.offset else 0);
      assert pages[..] == states[0];
      for t := 0 to |ns|
        invariant Valid() && !FrameZeroFree(phys.maps, PairsInUse())
        invariant |ranges| == t && Handed(states, taken, ranges, from) && pages[..] == states[t]
        invariant Prefix(states[0]) && forall k | 0 <= k < |taken| :: 0 !in taken[k]
      {
        ghost var frames, used := [], PairsInUse();
        var ok, addr, size;
        ok, addr, size, frames := Grow(ns[t]);
        NoFrameZero(phys.maps, used, PairsInUse(), frames);
        HandedNext(states, taken, ranges, from, frames, if ok then Some((addr, size)) else None);
        states, taken := states + [pages[..]], taken + [frames];
        ranges := ranges + [if ok then Some((addr, size)) else None];
      }
      PrefixOverRuns(states, taken, |ns|);
      forall a, b | 0 <= a < b < |ranges| && ranges[a].Some? && ranges[b].Some?
        ensures ranges[a].value.0 + ranges[a].value.1 <= ranges[b].value.0
      {
        RangesFresh(states, taken, a, b);
      }
    }

    // The allocator has no free page left.
    ghost predicate Exhausted()
      requires phys.Valid()
      reads phys, phys.words
    {
      forall k: nat, i: nat | Tracked(phys.maps, k, i) :: phys.InUse(k, i)
    }

    ghost function PairsInUse(): set<(nat, nat)>
      requires phys.Valid()
      reads phys, phys.words
    {
      UsedPairs(phys.words[..], phys.maps)
    }
  }

  // The frames are pages the allocator keeps and had not given away.
  ghost predicate AllFree(maps: seq<Bitmap>, used: set<(nat, nat)>, frames: seq<nat>) {
    forall f | f in frames :: exists k: nat, i: nat :: Tracked(maps, k, i) && f == PageAt(maps, k, i) && (k, i) !in used
  }

  // The frames are entered from `addr` on.
  ghost predicate Mapped(pmap: map<nat, nat>, frames: seq<nat>, addr: nat) {
    forall j: nat | j < |frames| :: addr + j * PAGE in pmap && pmap[addr + j * PAGE] == frames[j]
  }

  // Only the `n` pages from `addr` on may have changed.
  ghost predicate SameElsewhere(pmap: map<nat, nat>, pmap': map<nat, nat>, addr: nat, n: nat) {
    forall a: nat | !(addr <= a < addr + n * PAGE) :: (a in pmap' <==> a in pmap) && (a in pmap' ==> pmap'[a] == pmap[a])
  }

  lemma MappedNext(pmap: map<nat, nat>, frames: seq<nat>, addr: nat, f: nat)
    requires Mapped(pmap, frames, addr)
    ensures Mapped(pmap[addr + |frames| * PAGE := f], frames + [f], addr)
  {
  }

  lemma NothingTaken(pmap: map<nat, nat>, maps: seq<Bitmap>, used: set<(nat, nat)>, addr: nat)
    ensures Mapped(pmap, [], addr) && AllFree(maps, used, [])
  {
  }

  lemma FreeNext(maps: seq<Bitmap>, used: set<(nat, nat)>, now: set<(nat, nat)>, frames: seq<nat>, f: nat)
    requires AllFree(maps, used, frames) && AllFree(maps, now, [f]) && used <= now
    ensures AllFree(maps, used, frames + [f])
  {
    assert f in [f];
  }

  lemma {:induction false} FirstFreeIs(pages: seq<nat>, i: nat)
    requires i <= |pages| && (i < |pages| ==> pages[i] == 0) && forall j | 0 <= j < i :: pages[j] != 0
    ensures FirstFree(pages) == i
  {
    if pages != [] && pages[0] != 0 {
      FirstFreeIs(pages[1..], i - 1);
    }
  }

  lemma StoreNext(was: seq<nat>, before: seq<nat>, frames: seq<nat>, start: nat, i: nat, f: nat)
    requires i == start + |frames| < |was| && before == was[..start] + frames + was[i..]
    ensures before[i := f] == was[..start] + (frames + [f]) + was[i + 1..]
  {
  }

  lemma StoredAt(pages: seq<nat>, frames: seq<nat>, l: nat)
    requires FirstFree(pages) + |frames| <= |pages| && l < |pages|
    ensures var i := FirstFree(pages);
      |Stored(pages, frames)| == |pages| &&
      Stored(pages, frames)[l] == if i <= l < i + |frames| then frames[l - i] else pages[l]
  {
  }

  /////////////// Fresh ranges ///////////////

  // Storing frames keeps the prefix and moves its end by exactly the number of
  // frames if and only if none of them is frame 0.
  lemma {:induction false} StoredPrefixIff(pages: seq<nat>, frames: seq<nat>)
    requires Prefix(pages) && FirstFree(pages) + |frames| <= |pages|
    ensures var pages' := Stored(pages, frames);
      0 !in frames <==> Prefix(pages') && FirstFree(pages') == FirstFree(pages) + |frames|
  {
    var i, n := FirstFree(pages), |frames|;
    var pages' := Stored(pages, frames);
    forall l | 0 <= l < |pages| ensures |pages'| == |pages| && pages'[l] == if i <= l < i + n then frames[l - i] else pages[l] {
      StoredAt(pages, frames, l);
    }
    if 0 !in frames {
      FirstFreeIs(pages', i + n);
    } else {
      var j :| 0 <= j < n && frames[j] == 0;
      assert pages'[i + j] == 0;
    }
  }

  // A run of calls, with the frames each one took.
  ghost predicate IsRun(states: seq<seq<nat>>, taken: seq<seq<nat>>) {
    && |states| == |taken| + 1
    && forall t | 0 <= t < |taken| ::
        FirstFree(states[t]) + |taken[t]| <= |states[t]| && states[t + 1] == Stored(states[t], taken[t])
  }

  // Fresh kernel ranges: as long as frame 0 is never handed out, the ranges of
  // different calls of a run do not overlap, and the entries stay a prefix.
  lemma {:induction false} RangesFresh(states: seq<seq<nat>>, taken: seq<seq<nat>>, s: nat, t: nat)
    requires IsRun(states, taken) && Prefix(states[0]) && s < t < |states|
    requires forall k | 0 <= k < |taken| :: 0 !in taken[k]
    ensures Prefix(states[t]) && FirstFree(states[s]) + |taken[s]| <= FirstFree(states[t])
    decreases t
  {
    PrefixOverRuns(states, taken, t);
    if s + 1 < t {
      RangesFresh(states, taken, s, t - 1);
    }
    PrefixOverRuns(states, taken, t - 1);
    StoredPrefixIff(states[t - 1], taken[t - 1]);
  }

  lemma {:induction false} PrefixOverRuns(states: seq<seq<nat>>, taken: seq<seq<nat>>, t: nat)
    requires IsRun(states, taken) && Prefix(states[0]) && t < |states|
    requires forall k | 0 <= k < |taken| :: 0 !in taken[k]
    ensures Prefix(states[t])
  {
    if t > 0 {
      PrefixOverRuns(states, taken, t - 1);
      StoredPrefixIff(states[t - 1], taken[t - 1]);
    }
  }

  // The address ranges handed out by a run over the entries behind address `from`.
  ghost predicate Handed(states: seq<seq<nat>>, taken: seq<seq<nat>>, ranges: seq<Option<(nat, nat)>>, from: nat) {
    && IsRun(states, taken) && |ranges| == |taken|
    && forall t | 0 <= t < |ranges| && ranges[t].Some? ::
         taken[t] != [] && ranges[t].value == (from + FirstFree(states[t]) * PAGE, |taken[t]| * PAGE)
  }

  lemma HandedNext(states: seq<seq<nat>>, taken: seq<seq<nat>>, ranges: seq<Option<(nat, nat)>>, from: nat, frames: seq<nat>, range: Option<(nat, nat)>)
    requires Handed(states, taken, ranges, from)
    requires var pages := states[|taken|];
      && FirstFree(pages) + |frames| <= |pages|
      && (range.Some? ==> frames != [] && range.value == (from + FirstFree(pages) * PAGE, |frames| * PAGE))
    ensures Handed(states + [Stored(states[|taken|], frames)], taken + [frames], ranges + [range], from)
  {
    hide Stored;
    hide FirstFree;
    var states', taken' := states + [Stored(states[|taken|], frames)], taken + [frames];
    assert forall t | 0 <= t < |taken| :: states'[t] == states[t] && taken'[t] == taken[t];
  }

  lemma NoFrameZero(maps: seq<Bitmap>, used: set<(nat, nat)>, now: set<(nat, nat)>, frames: seq<nat>)
    requires AllFree(maps, used, frames) && !FrameZeroFree(maps, used) && used <= now
    ensures 0 !in frames && !FrameZeroFree(maps, now)
  {
  }

  // With frame 0 in the pool the same address is handed out twice: the entry of
  // the first page still looks free.
  lemma {:induction false} FrameZeroIsHandedOutTwice(pages: seq<nat>, frames: seq<nat>, j: nat)
    requires FirstFree(pages) + |frames| <= |pages| && j < |frames| && frames[j] == 0
    requires forall l | 0 <= l < j :: frames[l] != 0
    ensures FirstFree(Stored(pages, frames)) == FirstFree(pages) + j
  {
    var i, pages' := FirstFree(pages), Stored(pages, frames);
    forall l: nat | l < i + j ensures pages'[l] != 0 {
      StoredAt(pages, frames, l);
      assert l >= i ==> frames[l - i] != 0;
    }
    StoredAt(pages, frames, i + j);
    FirstFreeIs(pages', i + j);
  }

  // Frame 0 is in the pool and can be handed out.
  ghost predicate FrameZeroFree(maps: seq<Bitmap>, used: set<(nat, nat)>) {
    exists k: nat, i: nat :: Tracked(maps, k, i) && PageAt(maps, k, i) == 0 && (k, i) !in used
  }

  ghost predicate FrameZeroTracked(maps: seq<Bitmap>) {
    exists k: nat, i: nat :: Tracked(maps, k, i) && PageAt(maps, k, i) == 0
  }

  // Frame 0 is in the pool exactly when some tracked range begins at address 0.
  lemma FrameZeroTrackedIff(maps: seq<Bitmap>)
    requires Slices(maps)
    ensures FrameZeroTracked(maps) <==>
            (exists k: nat :: k < |maps| && maps[k].range.begin == 0 && maps[k].length > 0)
  {
    if k: nat :| k < |maps| && maps[k].range.begin == 0 && maps[k].length > 0 {
      assert Tracked(maps, k, 0) && PageAt(maps, k, 0) == 0;
    }
    if k: nat, i: nat :| Tracked(maps, k, i) && PageAt(maps, k, i) == 0 {
      assert maps[k].range.begin == 0;
    }
  }
}
