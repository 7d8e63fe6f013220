// The boot-time page allocator: bitmaps carved out of one static word array
// (system/physmem/phys_bmainit.c) and first-fit allocation in them
// (system/physmem/phys_bmalloc.c).
module PhysPages {
  import opened Basics

  const WORDS: nat := 0x1000     // UNUMBER
  const MAPS: nat := 0x10        // NNUMBER

  // struct physmem_range
  datatype Range = Range(begin: nat, end: nat)

  // struct physmem_bmalloc; `start` is where its words begin in the block.
  datatype Bitmap = Bitmap(range: Range, start: nat, length: nat)

  predicate PageRange(r: Range) {
    r.begin % PAGE == 0 && r.end % PAGE == 0 && r.begin <= r.end < WORD32
  }

  function Pages(r: Range): (n: nat)
    requires PageRange(r)
    ensures n * PAGE == r.end - r.begin
  {
    (r.end - r.begin) / PAGE
  }

  // The least number of 32-bit words that hold `bits` bits.
  function WordsFor(bits: nat): (w: nat)
    ensures 32 * w >= bits && 32 * w < bits + 32
  {
    (bits + 31) / 32
  }

  // BIT_32 test
  predicate BitSet(w: bv32, b: nat)
    requires b < 32
  {
    w & ((1 as bv32) << b) != 0
  }

  function WithBit(w: bv32, b: nat): (w': bv32)
    requires b < 32
    ensures forall c: nat | c < 32 :: BitSet(w', c) <==> b == c || BitSet(w, c)
  {
    var w' := w | ((1 as bv32) << b);
    assert forall c: nat | c < 32 :: BitSet(w', c) <==> b == c || BitSet(w, c) by {
      forall c: nat | c < 32 ensures BitSet(w', c) <==> b == c || BitSet(w, c) {
        OneBit(w, b, c);
      }
    }
    w'
  }

  lemma OneBit(w: bv32, b: nat, c: nat)
    requires b < 32 && c < 32
    ensures (w | ((1 as bv32) << b)) & ((1 as bv32) << c) != 0 <==> b == c || w & ((1 as bv32) << c) != 0
  {
  }

  lemma NoBits(b: nat)
    requires b < 32
    ensures !BitSet(0, b)
  {
  }

  // The ranges do not overlap.
  ghost predicate Disjoint(rs: seq<Range>) {
    forall k, l | 0 <= k < l < |rs| :: rs[k].end <= rs[l].begin || rs[l].end <= rs[k].begin
  }

  function RangesOf(maps: seq<Bitmap>): (rs: seq<Range>)
    ensures |rs| == |maps| && forall k | 0 <= k < |maps| :: rs[k] == maps[k].range
  {
    seq(|maps|, k requires 0 <= k < |maps| => maps[k].range)
  }

  // Slices in order, apart from each other and inside the block.
  ghost predicate Slices(maps: seq<Bitmap>) {
    && (forall k | 0 <= k < |maps| :: maps[k].start + WordsFor(maps[k].length) <= WORDS)
    && (forall k, l | 0 <= k < l < |maps| :: maps[k].start + WordsFor(maps[k].length) <= maps[l].start)
    && (forall k | 0 <= k < |maps| :: PageRange(maps[k].range) && maps[k].length <= Pages(maps[k].range))
  }

  ghost predicate Tracked(maps: seq<Bitmap>, k: nat, i: nat) {
    k < |maps| && i < maps[k].length
  }

  // The page that bit `i` of bitmap `k` stands for.
  function PageAt(maps: seq<Bitmap>, k: nat, i: nat): nat
    requires k < |maps|
  {
    maps[k].range.begin + i * PAGE
  }

  ghost predicate Used(words: seq<bv32>, maps: seq<Bitmap>, k: nat, i: nat)
    requires |words| == WORDS && Slices(maps) && Tracked(maps, k, i)
  {
    BitSet(words[maps[k].start + i / 32], i % 32)
  }

  // All pages in use, as (bitmap, index) pairs.
  ghost function UsedPairs(words: seq<bv32>, maps: seq<Bitmap>): set<(nat, nat)>
    requires |words| == WORDS && Slices(maps)
  {
    set k: nat, i: nat | k < |maps| && i < maps[k].length && Used(words, maps, k, i) :: (k, i)
  }

  // Different bits of a word block are different (bitmap, index) pairs.
  lemma SameBit(maps: seq<Bitmap>, k: nat, i: nat, l: nat, j: nat)
    requires Slices(maps) && Tracked(maps, k, i) && Tracked(maps, l, j)
    requires maps[k].start + i / 32 == maps[l].start + j / 32 && i % 32 == j % 32
    ensures k == l && i == j
  {
    assert i / 32 < WordsFor(maps[k].length) && j / 32 < WordsFor(maps[l].length);
    assert !(k < l) && !(l < k);
  }

  // On disjoint ranges, different bits stand for different pages, and each page
  // lies in its own range.
  lemma DistinctPages(maps: seq<Bitmap>, k: nat, i: nat, l: nat, j: nat)
    requires Slices(maps) && Disjoint(RangesOf(maps))
    requires Tracked(maps, k, i) && Tracked(maps, l, j)
    ensures PageAt(maps, k, i) == PageAt(maps, l, j) ==> k == l && i == j
    ensures maps[k].range.begin <= PageAt(maps, k, i) && PageAt(maps, k, i) + PAGE <= maps[k].range.end
  {
    InRange(maps[k], i);
    InRange(maps[l], j);
    var rs := RangesOf(maps);
    assert rs[k] == maps[k].range && rs[l] == maps[l].range;
  }

  lemma InRange(b: Bitmap, i: nat)
    requires PageRange(b.range) && b.length <= Pages(b.range) && i < b.length
    ensures b.range.begin + i * PAGE + PAGE <= b.range.end
  {
    assert (i + 1) * PAGE <= Pages(b.range) * PAGE;
  }

  // Every page of every range is tracked.
  ghost predicate Complete(maps: seq<Bitmap>, ranges: seq<Range>)
    requires forall k | 0 <= k < |ranges| :: PageRange(ranges[k])
  {
    |maps| == |ranges| && forall k | 0 <= k < |maps| :: maps[k].length == Pages(ranges[k])
  }

  // The boot code stopped at range `i` with address `t`: all earlier ranges are
  // tracked completely, and `t` is the first page of range `i` that is not, or, when
  // all of them are, the end of its last bitmap word.
  ghost predicate Stopped(maps: seq<Bitmap>, ranges: seq<Range>, i: nat, t: nat)
    requires forall k | 0 <= k < |ranges| :: PageRange(ranges[k])
  {
    && i < |ranges| && (forall k | 0 <= k < i && k < |maps| :: maps[k].length == Pages(ranges[k]))
    && if i >= MAPS then |maps| == i && t == ranges[i].begin
       else
         && |maps| == i + 1
         && (maps[i].length < Pages(ranges[i]) ==> t == ranges[i].begin + maps[i].length * PAGE)
         && (maps[i].length >= Pages(ranges[i]) ==>
               t == (ranges[i].begin + 32 * WordsFor(Pages(ranges[i])) * PAGE) % WORD32)
  }

  class Allocator {
    var words: array<bv32>
    var maps: seq<Bitmap>

    ghost predicate Valid()
      reads this, words
    {
      words.Length == WORDS && Slices(maps)
    }

    ghost predicate InUse(k: nat, i: nat)
      requires Valid() && Tracked(maps, k, i)
      reads this, words
    {
      Used(words[..], maps, k, i)
    }

    constructor ()
      ensures Valid() && fresh(words) && maps == []
    {
      words := new bv32[WORDS];
      maps := [];
    }

    // One turn of the boot loop: carve the words for a range out of the block, as
    // far as it has any left, and clear them.
    method Carve(r: Range, current: nat) returns (next: nat)
      requires words.Length == WORDS && current < WORDS && PageRange(r) && SlicesUpTo(maps, current)
      requires forall w | 0 <= w < current :: words[w] == 0
      modifies this`maps, words
      ensures next == (if current + WordsFor(Pages(r)) <= WORDS then current + WordsFor(Pages(r)) else WORDS)
      ensures current <= next && (next < WORDS ==> 32 * (next - current) >= Pages(r))
      ensures var bits := 32 * (next - current);
        maps == old(maps) + [Bitmap(r, current, if bits > Pages(r) then Pages(r) else bits)]
      ensures SlicesUpTo(maps, next) && forall w | 0 <= w < next :: words[w] == 0
    {
      var m := Pages(r);
      var n := WordsFor(m);
      var j := 0;
      while j < n && current + j < WORDS
        invariant 0 <= j <= n && current + j <= WORDS
        invariant forall w | 0 <= w < current + j :: words[w] == 0
        modifies words
      {
        words[current + j] := 0;
        j := j + 1;
      }
      var k := if 32 * j > m then m else 32 * j;
      SlicesAppend(maps, Bitmap(r, current, k), current, current + j);
      maps := maps + [Bitmap(r, current, k)];
      next := current + j;
    }

    // vm_phys_bm_bootinit: result 0 means that every page of every range is
    // tracked; no page is used yet.  `stop` is what it writes to *Pi and *Pt, if it
    // does: the range it stopped at and the first address there that is not tracked.
    method BootInit(ranges: seq<Range>) returns (status: int, stop: Option<(nat, nat)>)
      requires words.Length == WORDS
      requires forall k | 0 <= k < |ranges| :: PageRange(ranges[k])
      modifies this, words
      ensures words == old(words) && Valid()
      ensures |maps| <= |ranges| && |maps| <= MAPS && forall k | 0 <= k < |maps| :: maps[k].range == ranges[k]
      ensures forall k: nat, i: nat | Tracked(maps, k, i) :: !InUse(k, i)
      ensures status == 0 || status == -1
      ensures stop.None? ==> Complete(maps, ranges)
      ensures stop.Some? ==> Stopped(maps, ranges, stop.value.0, stop.value.1)
      ensures status == 0 ==> Complete(maps, ranges)
      ensures Complete(maps, ranges) && (forall k | 0 <= k < |ranges| :: ranges[k].begin + WORDS * 32 * PAGE < WORD32) ==>
        status == 0
    {
      hide Pages;
      hide WordsFor;
      var current: nat := 0;
      maps := [];
      assert SlicesUpTo(maps, current);
      hide Slices;
      var i := 0;
      while i < |ranges|
        invariant 0 <= i <= |ranges| && i == |maps| <= MAPS && words == old(words)
        invariant current < WORDS && SlicesUpTo(maps, current)
        invariant forall k | 0 <= k < |maps| :: maps[k].range == ranges[k] && maps[k].length == Pages(ranges[k])
        invariant forall w | 0 <= w < current :: words[w] == 0
      {
        if i >= MAPS {
          AllClear(words[..], maps, current);
          stop := Some((i, ranges[i].begin));
          return -1, stop;
        }
        var next := Carve(ranges[i], current);
        var j := next - current;
        current := next;
        if current >= WORDS {
          AllClear(words[..], maps, current);
          Threshold(ranges[i], j);
          StopsAt(maps, ranges, i, j);
          var t := (ranges[i].begin + 32 * j * PAGE) % WORD32;
          stop := Some((i, t));
          if t >= ranges[i].end && i + 1 >= |ranges| {
            return 0, stop;
          }
          return -1, stop;
        }
        i := i + 1;
      }
      AllClear(words[..], maps, current);
      return 0, None;
    }

    // bitmap_search: take the first free page of one bitmap.
    method Search(k: nat) returns (page: Option<nat>, ghost i: nat)
      requires Valid() && k < |maps|
      modifies words
      ensures Valid()
      ensures page.Some? ==>
        && Tracked(maps, k, i) && !old(InUse(k, i)) && page.value == PageAt(maps, k, i)
        && (forall l: nat, j: nat | Tracked(maps, l, j) :: InUse(l, j) <==> old(InUse(l, j)) || (l == k && j == i))
        && (forall j | 0 <= j < i :: old(InUse(k, j)))
      ensures page.None? ==>
        words[..] == old(words[..]) && forall j | 0 <= j < maps[k].length :: InUse(k, j)
    {
      var b := maps[k];
      var n := 0;
      while n < b.length
        invariant 0 <= n <= b.length && words[..] == old(words[..])
        invariant forall j | 0 <= j < n :: InUse(k, j)
      {
        var w := b.start + n / 32;
        assert n / 32 < WordsFor(b.length);
        if !BitSet(words[w], n % 32) {
          ghost var before := words[..];
          words[w] := WithBit(words[w], n % 32);
          Marked(before, words[..], maps, k, n);
          return Some(n * PAGE + b.range.begin), n;
        }
        assert InUse(k, n);
        n := n + 1;
      }
      return None, 0;
    }

    // vm_phys_alloc: the first free page of the first bitmap that has one.
    method Alloc() returns (page: Option<nat>, ghost k: nat, ghost i: nat)
      requires Valid()
      modifies words
      ensures Valid()
      ensures page.Some? ==>
        && Tracked(maps, k, i) && !old(InUse(k, i)) && page.value == PageAt(maps, k, i)
        && (forall l: nat, j: nat | Tracked(maps, l, j) :: InUse(l, j) <==> old(InUse(l, j)) || (l == k && j == i))
        && (forall l: nat, j: nat | Tracked(maps, l, j) && (l < k || (l == k && j < i)) :: old(InUse(l, j)))
        && (k, i) !in old(UsedPairs(words[..], maps))
        && UsedPairs(words[..], maps) == old(UsedPairs(words[..], maps)) + {(k, i)}
      ensures page.None? ==>
        words[..] == old(words[..]) && forall l: nat, j: nat | Tracked(maps, l, j) :: InUse(l, j)
    {
      k, i := 0, 0;
      var n := 0;
      while n < |maps|
        invariant 0 <= n <= |maps| && words[..] == old(words[..])
        invariant forall l: nat, j: nat | Tracked(maps, l, j) && l < n :: InUse(l, j)
      {
        page, i := Search(n);
        if page.Some? {
          k := n;
          PairsGrow(old(words[..]), words[..], maps, k, i);
          return;
        }
        n := n + 1;
      }
      return None, 0, 0;
    }

    // Any number of calls of vm_phys_alloc: no page is returned twice, none was in
    // use before, each lies in a tracked range, and there are fewer than asked for
    // only when none is left.
    method AllocMany(n: nat) returns (pages: seq<nat>)
      requires Valid() && Disjoint(RangesOf(maps))
      modifies words
      ensures Valid() && |pages| <= n
      ensures forall a, b | 0 <= a < b < |pages| :: pages[a] != pages[b]
      ensures forall a | 0 <= a < |pages| :: FreshPage(maps, old(words[..]), pages[a])
      ensures |pages| < n ==> forall l: nat, j: nat | Tracked(maps, l, j) :: InUse(l, j)
    {
      hide Slices;
      hide Used;
      hide Tracked;
      hide UsedPairs;
      hide PageAt;
      ghost var used, taken := [UsedPairs(words[..], maps)], [];
      pages := [];
      while |pages| < n
        invariant Valid() && |pages| <= n && Taken(maps, used, taken, pages)
        invariant used[0] == old(UsedPairs(words[..], maps)) && used[|taken|] == UsedPairs(words[..], maps)
      {
        ghost var k, i;
        var page;
        page, k, i := Alloc();
        if page.None? {
          break;
        }
        TakenNext(maps, used, taken, pages, (k, i), UsedPairs(words[..], maps));
        used, taken := used + [UsedPairs(words[..], maps)], taken + [(k, i)];
        pages := pages + [page.value];
      }
      forall a, b | 0 <= a < b < |pages| ensures pages[a] != pages[b] {
        PagesUnique(maps, used, taken, a, b);
      }
      forall a | 0 <= a < |pages| ensures FreshPage(maps, old(words[..]), pages[a]) {
        TakenFresh(maps, old(words[..]), used, taken, pages, a);
      }
    }
  }

  lemma TrackedDisjoint(maps: seq<Bitmap>, ranges: seq<Range>)
    requires Disjoint(ranges) && |maps| <= |ranges| && forall k | 0 <= k < |maps| :: maps[k].range == ranges[k]
    ensures Disjoint(RangesOf(maps))
  {
  }

  // A boot of disjoint ranges followed by allocations hands out distinct pages of
  // those ranges.
  method BootAndAlloc(ranges: seq<Range>, n: nat) returns (status: int, pages: seq<nat>)
    requires Disjoint(ranges) && forall k | 0 <= k < |ranges| :: PageRange(ranges[k])
    ensures forall a, b | 0 <= a < b < |pages| :: pages[a] != pages[b]
    ensures forall p | p in pages ::
              exists k | 0 <= k < |ranges| :: ranges[k].begin <= p && p + PAGE <= ranges[k].end && p % PAGE == 0
    ensures |pages| <= n
  {
    var phys := new Allocator();
    var stop;
    status, stop := phys.BootInit(ranges);
    TrackedDisjoint(phys.maps, ranges);
    pages := phys.AllocMany(n);
    forall a | 0 <= a < |pages|
      ensures exists k | 0 <= k < |ranges| ::
                ranges[k].begin <= pages[a] && pages[a] + PAGE <= ranges[k].end && pages[a] % PAGE == 0
    {
      var k :| 0 <= k < |phys.maps| && phys.maps[k].range.begin <= pages[a]
               && pages[a] + PAGE <= phys.maps[k].range.end && pages[a] % PAGE == 0;
      assert ranges[k] == phys.maps[k].range;
    }
  }

  // When the address behind `j` words of bits reaches the end of a range.
  lemma Threshold(r: Range, j: nat)
    requires PageRange(r) && j <= WORDS
    ensures (r.begin + 32 * j * PAGE) % WORD32 >= r.end ==> 32 * j >= Pages(r)
    ensures r.begin + WORDS * 32 * PAGE < WORD32 && 32 * j >= Pages(r) ==> (r.begin + 32 * j * PAGE) % WORD32 >= r.end
  {
    assert r.end - r.begin == Pages(r) * PAGE;
  }

  lemma StopsAt(maps: seq<Bitmap>, ranges: seq<Range>, i: nat, j: nat)
    requires forall k | 0 <= k < |ranges| :: PageRange(ranges[k])
    requires i < |ranges| && i < MAPS && |maps| == i + 1
    requires forall k | 0 <= k < i :: maps[k].length == Pages(ranges[k])
    requires j <= WordsFor(Pages(ranges[i]))
    requires maps[i].length == if 32 * j > Pages(ranges[i]) then Pages(ranges[i]) else 32 * j
    ensures Stopped(maps, ranges, i, (ranges[i].begin + 32 * j * PAGE) % WORD32)
  {
    var r := ranges[i];
    assert r.end - r.begin == Pages(r) * PAGE;
    if maps[i].length < Pages(r) {
      assert 32 * j * PAGE <= Pages(r) * PAGE;
    } else {
      assert j == WordsFor(Pages(r));
    }
  }

  // The slices carved so far lie below `current`.
  ghost predicate SlicesUpTo(maps: seq<Bitmap>, current: nat) {
    && Slices(maps) && current <= WORDS
    && forall k | 0 <= k < |maps| :: maps[k].start + WordsFor(maps[k].length) <= current
  }

  lemma SlicesAppend(maps: seq<Bitmap>, b: Bitmap, current: nat, next: nat)
    requires SlicesUpTo(maps, current) && b.start == current && current + WordsFor(b.length) <= next <= WORDS
    requires PageRange(b.range) && b.length <= Pages(b.range)
    ensures SlicesUpTo(maps + [b], next)
  {
  }

  lemma AllClear(words: seq<bv32>, maps: seq<Bitmap>, current: nat)
    requires |words| == WORDS && SlicesUpTo(maps, current)
    requires forall w | 0 <= w < current :: words[w] == 0
    ensures Slices(maps) && forall k: nat, i: nat | Tracked(maps, k, i) :: !Used(words, maps, k, i)
  {
    forall k: nat, i: nat | Tracked(maps, k, i) ensures !Used(words, maps, k, i) {
      assert i / 32 < WordsFor(maps[k].length);
      NoBits(i % 32);
    }
  }

  // Setting one bit uses one page and leaves all other pages as they are.
  lemma Marked(words: seq<bv32>, words': seq<bv32>, maps: seq<Bitmap>, k: nat, i: nat)
    requires |words| == WORDS && Slices(maps) && Tracked(maps, k, i)
    requires maps[k].start + i / 32 < WORDS
    requires words' == words[maps[k].start + i / 32 := WithBit(words[maps[k].start + i / 32], i % 32)]
    ensures forall l: nat, j: nat | Tracked(maps, l, j) :: Used(words', maps, l, j) <==> Used(words, maps, l, j) || (l == k && j == i)
  {
    forall l: nat, j: nat | Tracked(maps, l, j)
      ensures Used(words', maps, l, j) <==> Used(words, maps, l, j) || (l == k && j == i)
    {
      assert j / 32 < WordsFor(maps[l].length);
      if maps[l].start + j / 32 == maps[k].start + i / 32 && j % 32 == i % 32 {
        SameBit(maps, l, j, k, i);
      }
    }
  }

  lemma PairsGrow(words: seq<bv32>, words': seq<bv32>, maps: seq<Bitmap>, k: nat, i: nat)
    requires |words| == WORDS && |words'| == WORDS && Slices(maps) && Tracked(maps, k, i)
    requires forall l: nat, j: nat | Tracked(maps, l, j) ::
      Used(words', maps, l, j) <==> Used(words, maps, l, j) || (l == k && j == i)
    ensures UsedPairs(words', maps) == UsedPairs(words, maps) + {(k, i)}
  {
    forall l: nat, j: nat ensures (l, j) in UsedPairs(words', maps) <==> (l, j) in UsedPairs(words, maps) + {(k, i)} {
      assert l < |maps| && j < maps[l].length ==> Tracked(maps, l, j);
    }
  }

  /////////////// Whole runs ///////////////

  // The used pages along a run of successful allocations, as Alloc leaves them:
  // each call takes a pair that was not in use before.
  ghost predicate IsRun(used: seq<set<(nat, nat)>>, taken: seq<(nat, nat)>) {
    && |used| == |taken| + 1
    && forall n | 0 <= n < |taken| :: taken[n] !in used[n] && used[n + 1] == used[n] + {taken[n]}
  }

  lemma {:induction false} StaysUsed(used: seq<set<(nat, nat)>>, taken: seq<(nat, nat)>, m: nat, n: nat)
    requires IsRun(used, taken) && m < n < |used|
    ensures taken[m] in used[n]
  {
    if m + 1 < n {
      StaysUsed(used, taken, m, n - 1);
    }
  }

  // Page uniqueness: over any run of vm_phys_alloc, no page is returned twice,
  // and each page lies in the range of its bitmap.
  lemma PagesUnique(maps: seq<Bitmap>, used: seq<set<(nat, nat)>>, taken: seq<(nat, nat)>, m: nat, n: nat)
    requires Slices(maps) && Disjoint(RangesOf(maps))
    requires IsRun(used, taken)
    requires m < n < |taken| && Tracked(maps, taken[m].0, taken[m].1) && Tracked(maps, taken[n].0, taken[n].1)
    ensures PageAt(maps, taken[m].0, taken[m].1) != PageAt(maps, taken[n].0, taken[n].1)
    ensures var r, p := maps[taken[m].0].range, PageAt(maps, taken[m].0, taken[m].1); r.begin <= p && p + PAGE <= r.end
  {
    StaysUsed(used, taken, m, n);
    DistinctPages(maps, taken[m].0, taken[m].1, taken[n].0, taken[n].1);
  }

  // A run of allocations and the pages it returned.
  ghost predicate Taken(maps: seq<Bitmap>, used: seq<set<(nat, nat)>>, taken: seq<(nat, nat)>, pages: seq<nat>) {
    && IsRun(used, taken) && |taken| == |pages|
    && forall a | 0 <= a < |pages| ::
         Tracked(maps, taken[a].0, taken[a].1) && pages[a] == PageAt(maps, taken[a].0, taken[a].1)
  }

  lemma TakenNext(maps: seq<Bitmap>, used: seq<set<(nat, nat)>>, taken: seq<(nat, nat)>, pages: seq<nat>, pair: (nat, nat), now: set<(nat, nat)>)
    requires Taken(maps, used, taken, pages) && Tracked(maps, pair.0, pair.1)
    requires pair !in used[|taken|] && now == used[|taken|] + {pair}
    ensures Taken(maps, used + [now], taken + [pair], pages + [PageAt(maps, pair.0, pair.1)])
  {
  }

  // A whole page of some tracked range that was not in use.
  ghost predicate FreshPage(maps: seq<Bitmap>, words: seq<bv32>, p: nat)
    requires |words| == WORDS && Slices(maps)
  {
    && (exists k | 0 <= k < |maps| :: maps[k].range.begin <= p && p + PAGE <= maps[k].range.end && p % PAGE == 0)
    && forall l: nat, j: nat | Tracked(maps, l, j) && Used(words, maps, l, j) :: PageAt(maps, l, j) != p
  }

  lemma {:induction false} UsedBefore(used: seq<set<(nat, nat)>>, taken: seq<(nat, nat)>, n: nat)
    requires IsRun(used, taken) && n < |used|
    ensures used[0] <= used[n]
  {
    if n > 0 {
      UsedBefore(used, taken, n - 1);
    }
  }

  lemma TakenFresh(maps: seq<Bitmap>, words: seq<bv32>, used: seq<set<(nat, nat)>>, taken: seq<(nat, nat)>, pages: seq<nat>, a: nat)
    requires |words| == WORDS && Slices(maps) && Disjoint(RangesOf(maps))
    requires Taken(maps, used, taken, pages) && used[0] == UsedPairs(words, maps) && a < |pages|
    ensures FreshPage(maps, words, pages[a])
  {
    var (k, i) := taken[a];
    UsedBefore(used, taken, a);
    DistinctPages(maps, k, i, k, i);
    assert pages[a] % PAGE == 0;
    forall l: nat, j: nat | Tracked(maps, l, j) && Used(words, maps, l, j) ensures PageAt(maps, l, j) != pages[a] {
      assert (l, j) in UsedPairs(words, maps);
      DistinctPages(maps, k, i, l, j);
    }
  }
}
