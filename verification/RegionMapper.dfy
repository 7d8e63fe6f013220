// Region mappers (system/vm/region_mapper.c): first-fit placement on the sorted
// list of regions, in 32-bit address arithmetic.
module RegionMapper {
  import opened Basics

  // What a region maps: nothing, a dataspace with its page frames, or another
  // region mapper.
  datatype Object =
    | Undefined
    | Dataspace(size: nat, pages: seq<nat>)
    | Mapper(size: nat, children: seq<Region>)

  // struct region_mapper_object
  datatype Region = Region(offset: nat, size: nat, target: Object)

  function End(r: Region): nat {
    r.offset + r.size
  }

  // Sorted, pairwise disjoint and inside the mapper.
  ghost predicate Layout(rs: seq<Region>, size: nat) {
    && (forall i | 0 <= i < |rs| :: rs[i].size > 0 && End(rs[i]) <= size)
    && (forall i, j | 0 <= i < j < |rs| :: End(rs[i]) <= rs[j].offset)
  }

  // Does a region of size `n` at `offset` fit between the regions?
  ghost predicate Fits(rs: seq<Region>, size: nat, n: nat, offset: nat) {
    offset + n <= size && forall i | 0 <= i < |rs| :: offset + n <= rs[i].offset || End(rs[i]) <= offset
  }

  ghost predicate FitsSomewhere(rs: seq<Region>, size: nat, n: nat) {
    exists offset: nat :: Fits(rs, size, n, offset)
  }

  function LastEnd(rs: seq<Region>): nat {
    if rs == [] then 0 else End(rs[|rs| - 1])
  }

  // vaddr_t addition
  function Add32(a: nat, b: nat): nat {
    (a + b) % WORD32
  }

  class Table {
    const size: nat
    var children: seq<Region>

    constructor (size: nat)
      ensures this.size == size && children == []
    {
      this.size, children := size, [];
    }

    // rm_insert.  A region that fits is placed at the least offset where it
    // does, and the layout is kept.  One that does not fit is refused, except
    // when the sum of the last region's end and the size wraps around: then,
    // and only then, it is placed beyond the end of the mapper.
    method Insert(n: nat, target: Object) returns (ok: bool)
      requires 0 < n < WORD32 && size < WORD32 && Layout(children, size)
      modifies this
      ensures FitsSomewhere(old(children), size, n) ==>
        && ok && Layout(children, size)
        && exists k, offset ::
          && 0 <= k <= |old(children)|
          && children == old(children)[..k] + [Region(offset, n, target)] + old(children)[k..]
          && Fits(old(children), size, n, offset)
          && forall o: nat | o < offset :: !Fits(old(children), size, n, o)
      ensures !FitsSomewhere(old(children), size, n) && LastEnd(old(children)) + n < WORD32 ==>
        !ok && children == old(children)
      ensures !FitsSomewhere(old(children), size, n) && LastEnd(old(children)) + n >= WORD32 ==>
        ok && !Layout(children, size)
    {
      ghost var rs := children;
      var begin := 0;
      var i := 0;
      while i < |children|
        invariant 0 <= i <= |children| && children == rs
        invariant begin == if i == 0 then 0 else End(rs[i - 1])
        invariant forall o: nat | o < begin :: !Fits(rs, size, n, o)
      {
        var end := Add32(begin, n);
        if end > children[i].offset {
          assert begin <= rs[i].offset;
          assert begin + n > rs[i].offset;
          forall o: nat | begin <= o < End(rs[i]) ensures !Fits(rs, size, n, o) {
          }
          begin := End(children[i]);
          i := i + 1;
          continue;
        }
        children := children[..i] + [Region(begin, n, target)] + children[i..];
        Placed(rs, size, n, target, i, begin);
        return true;
      }
      var end := Add32(begin, n);
      if end > size {
        assert !FitsSomewhere(rs, size, n);
        return false;
      }
      children := children + [Region(begin, n, target)];
      assert children == rs[..i] + [Region(begin, n, target)] + rs[i..];
      Placed(rs, size, n, target, i, begin);
      return true;
    }
  }

  // What the placement at `begin`, before the region at `k`, amounts to.
  lemma Placed(rs: seq<Region>, size: nat, n: nat, target: Object, k: nat, begin: nat)
    requires 0 < n < WORD32 && size < WORD32 && Layout(rs, size) && k <= |rs|
    requires begin == if k == 0 then 0 else End(rs[k - 1])
    requires forall o: nat | o < begin :: !Fits(rs, size, n, o)
    requires if k < |rs| then Add32(begin, n) <= rs[k].offset else Add32(begin, n) <= size
    ensures var rs' := rs[..k] + [Region(begin, n, target)] + rs[k..];
      && (begin + n < WORD32 ==> Fits(rs, size, n, begin) && Layout(rs', size))
      && (begin + n >= WORD32 ==> !FitsSomewhere(rs, size, n) && LastEnd(rs) + n >= WORD32 && !Layout(rs', size))
  {
    var r := Region(begin, n, target);
    var rs' := rs[..k] + [r] + rs[k..];
    if begin + n < WORD32 {
      forall i | 0 <= i < |rs| ensures begin + n <= rs[i].offset || End(rs[i]) <= begin {
        if k < i {
          assert End(rs[k]) <= rs[i].offset;
        } else if i < k - 1 {
          assert End(rs[i]) <= rs[k - 1].offset;
        }
      }
      PlacedLayout(rs, size, r, k);
    } else {
      assert rs'[k] == r;
      assert rs != [] && begin <= LastEnd(rs) by {
        if k < |rs| && k > 0 {
          assert k - 1 == |rs| - 1 || End(rs[k - 1]) <= rs[|rs| - 1].offset;
        }
      }
      forall o: nat ensures !Fits(rs, size, n, o) {
        if o >= begin {
          assert o + n > size;
        }
      }
    }
  }

  function At(rs: seq<Region>, r: Region, k: nat, i: nat): Region
    requires k <= |rs| && i <= |rs|
  {
    if i < k then rs[i] else if i == k then r else rs[i - 1]
  }

  lemma PlacedOrder(rs: seq<Region>, size: nat, r: Region, k: nat, i: nat, j: nat)
    requires Layout(rs, size) && k <= |rs| && i < j <= |rs|
    requires k > 0 ==> End(rs[k - 1]) <= r.offset
    requires k < |rs| ==> End(r) <= rs[k].offset
    ensures End(At(rs, r, k, i)) <= At(rs, r, k, j).offset
  {
    if j == k && i < k - 1 {
      assert End(rs[i]) <= rs[k - 1].offset;
    } else if i == k && k < j - 1 {
      assert End(rs[k]) <= rs[j - 1].offset;
    }
  }

  lemma {:induction false} PlacedLayout(rs: seq<Region>, size: nat, r: Region, k: nat)
    requires Layout(rs, size) && k <= |rs| && r.size > 0 && End(r) <= size
    requires k > 0 ==> End(rs[k - 1]) <= r.offset
    requires k < |rs| ==> End(r) <= rs[k].offset
    ensures Layout(rs[..k] + [r] + rs[k..], size)
  {
    var rs' := rs[..k] + [r] + rs[k..];
    forall i | 0 <= i < |rs'| ensures rs'[i] == At(rs, r, k, i) && rs'[i].size > 0 && End(rs'[i]) <= size {
    }
    forall i, j | 0 <= i < j < |rs'| ensures End(rs'[i]) <= rs'[j].offset {
      PlacedOrder(rs, size, r, k, i, j);
    }
  }

  // The wrap-around can happen: a full mapper of 0xF0000000 bytes, and a region
  // of 0x20000000 bytes.
  lemma WrapHappens()
    ensures var rs, size, n := [Region(0, 0xF000_0000, Undefined)], 0xF000_0000, 0x2000_0000;
      && size < WORD32 && 0 < n < WORD32 && Layout(rs, size)
      && !FitsSomewhere(rs, size, n) && LastEnd(rs) + n >= WORD32
  {
    var rs, size, n := [Region(0, 0xF000_0000, Undefined)], 0xF000_0000, 0x2000_0000;
    forall o: nat ensures !Fits(rs, size, n, o) {
      assert o + n > rs[0].offset;
    }
  }
}
