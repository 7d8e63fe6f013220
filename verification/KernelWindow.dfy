// The window for temporary kernel mappings (system/arch/i686/physmem.c): a
// first-fit search for a run of free page-table entries, and its inverse.
module KernelWindow {
  import opened Basics

  const KPTMIN: nat := 3072
  const KPTMAX: nat := 4096
  const BASE: nat := 0xC000_0000
  const PTE_PW: nat := 3

  // PTE_ADDR(pa) | PTE_PW, for a 32-bit physical address.
  function Pte(pa: nat): (pte: nat)
    ensures pte != 0 && pte - pte % PAGE == pa % WORD32 - pa % WORD32 % PAGE
  {
    pa % WORD32 - pa % WORD32 % PAGE + PTE_PW
  }

  // An entry is present and writable, whatever the address.
  lemma PteFlags(pa: nat)
    ensures Pte(pa) % PAGE == 1 + 2
  {
    var w := pa % WORD32;
    var q := w / PAGE;
    assert Pte(pa) == q * PAGE + 3;
  }

  // `n` free entries from `i` on, inside the window.
  ghost predicate FreeRun(t: seq<nat>, i: nat, n: nat)
    requires |t| == KPTMAX
  {
    KPTMIN <= i && i + n <= KPTMAX && forall j | i <= j < i + n :: t[j] == 0
  }

  function EntryAt(t: seq<nat>, i: nat, pa: nat, n: nat, j: nat): nat
    requires j < |t|
  {
    if i <= j < i + n then Pte(pa + (j - i) * PAGE) else t[j]
  }

  // The table with `n` entries from `i` on pointing to consecutive pages from `pa` on.
  function MapAt(t: seq<nat>, i: nat, pa: nat, n: nat): (t': seq<nat>)
    requires i + n <= |t|
    ensures |t'| == |t|
    ensures forall j | 0 <= j < |t| :: t'[j] == if i <= j < i + n then Pte(pa + (j - i) * PAGE) else t[j]
  {
    seq(|t|, j requires 0 <= j < |t| => EntryAt(t, i, pa, n, j))
  }

  function ClearAt(t: seq<nat>, i: nat, n: nat): (t': seq<nat>)
    requires i + n <= |t|
    ensures |t'| == |t|
    ensures forall j | 0 <= j < |t| :: t'[j] == if i <= j < i + n then 0 else t[j]
  {
    seq(|t|, j requires 0 <= j < |t| => if i <= j < i + n then 0 else t[j])
  }

  // The search of map_page_range: the least run of `n` free entries.
  method FindRun(t: array<nat>, n: int) returns (i: nat)
    requires t.Length == KPTMAX && n != 0
    ensures KPTMIN <= i <= KPTMAX
    ensures i < KPTMAX ==> n > 0 && FreeRun(t[..], i, n) && forall h: nat | h < i :: !FreeRun(t[..], h, n)
    ensures i == KPTMAX && n > 0 ==> forall h: nat :: !FreeRun(t[..], h, n)
  {
    i := KPTMIN;
    while i < KPTMAX
      invariant KPTMIN <= i <= KPTMAX
      invariant n > 0 ==> forall h: nat | h < i :: !FreeRun(t[..], h, n)
    {
      if t[i] == 0 {
        var j, k := i, 0;
        while j < KPTMAX && k < n && t[j] == 0
          invariant i <= j <= KPTMAX && k == j - i && (0 < k ==> k <= n)
          invariant forall l | i <= l < j :: t[l] == 0
          decreases KPTMAX - j
        {
          j, k := j + 1, k + 1;
        }
        if k == n {
          return;
        }
        assert n > 0 && j < KPTMAX ==> t[..][j] != 0;
      } else {
        assert t[..][i] != 0;
      }
      i := i + 1;
    }
  }

  // map_page_range
  method MapPageRange(t: array<nat>, pa: nat, n: int) returns (va: nat)
    requires t.Length == KPTMAX
    modifies t
    ensures va == 0 ==> t[..] == old(t[..]) && (n > 0 ==> forall i: nat :: !FreeRun(old(t[..]), i, n))
    ensures va != 0 ==>
      && n > 0 && va >= BASE && (va - BASE) % PAGE == 0
      && var i := (va - BASE) / PAGE;
        && FreeRun(old(t[..]), i, n) && (forall h: nat | h < i :: !FreeRun(old(t[..]), h, n))
        && t[..] == MapAt(old(t[..]), i, pa, n)
  {
    if n == 0 {
      return 0;
    }
    var i := FindRun(t, n);
    if i >= KPTMAX {
      return 0;
    }
    va := BASE + i * PAGE;
    var k, p := 0, pa;
    while k < n
      invariant 0 <= k <= n && p == pa + k * PAGE
      invariant forall j | 0 <= j < KPTMAX :: t[j] == if i <= j < i + k then Pte(pa + (j - i) * PAGE) else old(t[j])
    {
      t[i + k] := Pte(p);
      k, p := k + 1, p + PAGE;
    }
    assert (va - BASE) / PAGE == i;
    assert t[..] == MapAt(old(t[..]), i, pa, n);
  }

  // The pages touched by `n` bytes at offset `off` of a page, as computed in 32 bits.
  function Spanned(off: nat, n: int): nat {
    (off + n + 0xFFF) % WORD32 / PAGE
  }

  // __i686_mp_map_range
  method MapRange(t: array<nat>, pa: nat, n: int) returns (va: nat)
    requires t.Length == KPTMAX && pa < WORD32 && -0x8000_0000 <= n < 0x8000_0000
    modifies t
    ensures va == 0 ==>
      t[..] == old(t[..]) && (n >= 1 ==> forall i: nat :: !FreeRun(old(t[..]), i, Spanned(pa % PAGE, n)))
    ensures va != 0 ==>
      && va >= BASE && va % PAGE == pa % PAGE
      && var i, m := (va - BASE) / PAGE, Spanned(pa % PAGE, n);
        m > 0 && FreeRun(old(t[..]), i, m) && t[..] == MapAt(old(t[..]), i, pa, m)
  {
    var off := pa % PAGE;
    var m := Spanned(off, n);
    var page := MapPageRange(t, pa, m);
    if page == 0 {
      if n >= 1 {
        assert m > 0;
      }
      return 0;
    }
    va := page + off;
    assert (va - BASE) / PAGE == (page - BASE) / PAGE;
  }

  // The pages that __i686_mp_unmap_range goes through: none for a range that ends
  // before its first page.
  function Passed(off: nat, n: int): nat {
    if off + n >= 1 then Spanned(off, n) else 0
  }

  // __i686_mp_unmap_range
  method UnmapRange(t: array<nat>, va: nat, n: int)
    requires t.Length == KPTMAX && -0x8000_0000 <= n < 0x8000_0000
    requires BASE <= va && (va - BASE) / PAGE + Passed(va % PAGE, n) <= KPTMAX
    modifies t
    ensures t[..] == ClearAt(old(t[..]), (va - BASE) / PAGE, Passed(va % PAGE, n))
  {
    var first := va - va % PAGE;
    var end := va + n - 1;
    var last := end - end % PAGE;
    ghost var base, m := (va - BASE) / PAGE, Passed(va % PAGE, n);
    Bounds(va, n);
    var i := first;
    ghost var k := 0;
    while i <= last
      invariant 0 <= k <= m && i == first + k * PAGE
      invariant forall j | 0 <= j < KPTMAX :: t[j] == if base <= j < base + k then 0 else old(t[j])
      decreases last + PAGE - i
    {
      assert (i - BASE) / PAGE == base + k;
      t[(i - BASE) / PAGE] := 0;
      i, k := i + PAGE, k + 1;
    }
    assert t[..] == ClearAt(old(t[..]), base, m);
  }

  lemma Bounds(va: nat, n: int)
    requires BASE <= va && -0x8000_0000 <= n < 0x8000_0000
    ensures var first, end, m := va - va % PAGE, va + n - 1, Passed(va % PAGE, n);
      && first == BASE + (va - BASE) / PAGE * PAGE
      && (m > 0 ==> end - end % PAGE == first + (m - 1) * PAGE)
      && (m == 0 ==> end - end % PAGE < first)
  {
  }

  // A range that could be mapped is unmapped page by page.
  lemma SamePages(off: nat, n: int)
    requires off < PAGE && -0x8000_0000 <= n < 0x8000_0000 && 0 < Spanned(off, n) <= KPTMAX
    ensures Passed(off, n) == Spanned(off, n)
  {
  }

  /////////////// Map and unmap are inverse ///////////////

  // What the hardware makes of an address in the window.
  function Translate(t: seq<nat>, a: nat): nat
    requires BASE <= a && (a - BASE) / PAGE < |t|
  {
    var pte := t[(a - BASE) / PAGE];
    pte - pte % PAGE + a % PAGE
  }

  // Every byte of a mapped range translates to the byte that was asked for,
  // aligned or not.
  lemma {:induction false} MappedTranslates(t: seq<nat>, va: nat, pa: nat, n: nat, k: nat)
    requires |t| == KPTMAX && pa < WORD32 && 1 <= n < 0x8000_0000 && k < n
    requires BASE <= va && va % PAGE == pa % PAGE
    requires (va - BASE) / PAGE + Spanned(pa % PAGE, n) <= KPTMAX
    ensures var i, m := (va - BASE) / PAGE, Spanned(pa % PAGE, n);
      (va + k - BASE) / PAGE < KPTMAX && Translate(MapAt(t, i, pa, m), va + k) == (pa + k) % WORD32
  {
    var i, m := (va - BASE) / PAGE, Spanned(pa % PAGE, n);
    var j := (va + k - BASE) / PAGE;
    Offsets(va, pa, n, k);
    assert i <= j < i + m;
    var p := pa + (j - i) * PAGE;
    assert MapAt(t, i, pa, m)[j] == Pte(p);
    SamePage(pa + k, p);
  }

  lemma Offsets(va: nat, pa: nat, n: nat, k: nat)
    requires BASE <= va && va % PAGE == pa % PAGE && k < n < 0x8000_0000
    ensures var i, j := (va - BASE) / PAGE, (va + k - BASE) / PAGE;
      && i <= j < i + Spanned(pa % PAGE, n)
      && (pa + k) / PAGE == (pa + (j - i) * PAGE) / PAGE
      && (va + k) % PAGE == (pa + k) % PAGE
  {
    var off := pa % PAGE;
    var q := (off + k) / PAGE;
    assert pa == pa / PAGE * PAGE + off && va - BASE == (va - BASE) / PAGE * PAGE + off;
    assert (va + k - BASE) / PAGE == (va - BASE) / PAGE + q;
    assert (pa + k) / PAGE == pa / PAGE + q;
    assert q < (off + n + 0xFFF) / PAGE;
  }

  lemma SamePage(a: nat, p: nat)
    requires a / PAGE == p / PAGE
    ensures Pte(p) - Pte(p) % PAGE + a % PAGE == a % WORD32
  {
    var base := p / PAGE;
    WrappedPage(base, p % PAGE);
    WrappedPage(base, a % PAGE);
  }

  lemma WrappedPage(base: nat, x: nat)
    requires x < PAGE
    ensures (base * PAGE + x) % WORD32 == base * PAGE % WORD32 + x
    ensures base * PAGE % WORD32 % PAGE == 0
  {
  }

  // Unmapping what was mapped restores the page table exactly.
  lemma UnmapRestores(t: seq<nat>, i: nat, pa: nat, m: nat)
    requires |t| == KPTMAX && FreeRun(t, i, m)
    ensures ClearAt(MapAt(t, i, pa, m), i, m) == t
  {
  }

  // The two calls together, for every physical address and every length.
  method MapThenUnmap(t: array<nat>, pa: nat, n: int) returns (va: nat)
    requires t.Length == KPTMAX && pa < WORD32 && -0x8000_0000 <= n < 0x8000_0000
    modifies t
    ensures t[..] == old(t[..])
  {
    va := MapRange(t, pa, n);
    if va != 0 {
      ghost var i, m := (va - BASE) / PAGE, Spanned(pa % PAGE, n);
      UnmapRestores(old(t[..]), i, pa, m);
      SamePages(pa % PAGE, n);
      UnmapRange(t, va, n);
    }
  }
}
