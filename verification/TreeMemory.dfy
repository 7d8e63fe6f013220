// How a tree lies in memory (system/vm/tree.h): cells at addresses, and slots,
// the places that hold a pointer to a node.
module TreeMemory {
  import opened Basics
  import opened TreeShape

  // struct bintree_node
  datatype Cell = Cell(key: nat, val: Value, left: Ptr, right: Ptr, depth: nat)

  type Memory = map<Ptr, Cell>

  // A struct bintree_node **: the root variable or a child field of a node.
  datatype Slot = RootSlot | LeftSlot(p: Ptr) | RightSlot(p: Ptr)

  datatype Store = Store(mem: Memory, root: Ptr)

  predicate HasSlot(st: Store, slot: Slot) {
    slot.RootSlot? || slot.p in st.mem
  }

  function Get(st: Store, slot: Slot): Ptr
    requires HasSlot(st, slot)
  {
    match slot
    case RootSlot => st.root
    case LeftSlot(p) => st.mem[p].left
    case RightSlot(p) => st.mem[p].right
  }

  function Put(st: Store, slot: Slot, q: Ptr): Store
    requires HasSlot(st, slot)
  {
    match slot
    case RootSlot => st.(root := q)
    case LeftSlot(p) => st.(mem := st.mem[p := st.mem[p].(left := q)])
    case RightSlot(p) => st.(mem := st.mem[p := st.mem[p].(right := q)])
  }

  // The memory holds the tree: every node in its own cell.
  ghost predicate Holds(m: Memory, s: Shape) {
    s.Node? ==>
      && s.p != 0 && s.p in m && m[s.p] == Cell(s.key, s.val, Top(s.left), Top(s.right), s.depth)
      && s.p !in Ptrs(s.left) && s.p !in Ptrs(s.right) && Ptrs(s.left) !! Ptrs(s.right)
      && Holds(m, s.left) && Holds(m, s.right)
  }

  ghost predicate Rooted(st: Store, s: Shape) {
    Holds(st.mem, s) && st.root == Top(s)
  }

  function SlotOf(ctx: seq<Frame>): Slot {
    if ctx == [] then RootSlot
    else if ctx[|ctx| - 1].dir == L then LeftSlot(ctx[|ctx| - 1].p)
    else RightSlot(ctx[|ctx| - 1].p)
  }

  // The nodes on the path and beside it.
  ghost function PathPtrs(ctx: seq<Frame>): set<Ptr> {
    if ctx == [] then {} else PathPtrs(ctx[..|ctx| - 1]) + {ctx[|ctx| - 1].p} + Ptrs(ctx[|ctx| - 1].sib)
  }

  ghost predicate Agree(m: Memory, m': Memory, ps: set<Ptr>) {
    forall p | p in ps && p in m :: p in m' && m'[p] == m[p]
  }

  lemma {:induction false} HoldsFrame(m: Memory, m': Memory, s: Shape)
    requires Holds(m, s) && forall p | p in Ptrs(s) && p in m :: p in m' && m'[p] == m[p]
    ensures Holds(m', s)
  {
    if s.Node? {
      HoldsFrame(m, m', s.left);
      HoldsFrame(m, m', s.right);
    }
  }

  lemma {:induction false} HeldPtrs(m: Memory, s: Shape)
    requires Holds(m, s)
    ensures forall p | p in Ptrs(s) :: p in m && p != 0
  {
    if s.Node? {
      HeldPtrs(m, s.left);
      HeldPtrs(m, s.right);
    }
  }

  lemma {:induction false} PlugPtrs(ctx: seq<Frame>, s: Shape)
    ensures Ptrs(Plug(ctx, s)) == PathPtrs(ctx) + Ptrs(s)
    decreases |ctx|
  {
    if ctx != [] {
      PlugPtrs(ctx[..|ctx| - 1], Fill(ctx[|ctx| - 1], s));
    }
  }

  // The subtree at the end of a path is held by itself, apart from the path, and
  // the slot at the end of the path points to it.
  lemma {:induction false} Focus(st: Store, ctx: seq<Frame>, s: Shape)
    requires Rooted(st, Plug(ctx, s))
    ensures Holds(st.mem, s) && PathPtrs(ctx) !! Ptrs(s)
    ensures HasSlot(st, SlotOf(ctx)) && Get(st, SlotOf(ctx)) == Top(s)
    decreases |ctx|
  {
    if ctx != [] {
      Focus(st, ctx[..|ctx| - 1], Fill(ctx[|ctx| - 1], s));
    }
  }

  // Replacing the subtree: once the memory holds the new subtree apart from the
  // path, storing its address in the slot replaces it in the whole tree.
  lemma {:induction false} Replace(st: Store, m: Memory, ctx: seq<Frame>, s: Shape, s': Shape)
    requires Rooted(st, Plug(ctx, s))
    requires Agree(st.mem, m, PathPtrs(ctx)) && Holds(m, s') && Ptrs(s') !! PathPtrs(ctx)
    ensures HasSlot(Store(m, st.root), SlotOf(ctx))
    ensures Rooted(Put(Store(m, st.root), SlotOf(ctx), Top(s')), Plug(ctx, s'))
    decreases |ctx|
  {
    if ctx != [] {
      var rest, f := ctx[..|ctx| - 1], ctx[|ctx| - 1];
      Focus(st, rest, Fill(f, s));
      Focus(st, ctx, s);
      var st' := Put(Store(m, st.root), SlotOf(ctx), Top(s'));
      Refilled(st.mem, m, f, s, s');
      Replace(st, st'.mem, rest, Fill(f, s), Fill(f, s'));
      SameSlot(st, st', rest);
    }
  }

  // One node with a new child in the place of an old one.
  lemma Refilled(m0: Memory, m: Memory, f: Frame, s: Shape, s': Shape)
    requires Holds(m0, Fill(f, s)) && f.p in m && f.p in m0 && m[f.p] == m0[f.p]
    requires Agree(m0, m, Ptrs(f.sib)) && Holds(m, s') && f.p !in Ptrs(s') && Ptrs(f.sib) !! Ptrs(s')
    ensures var q := Top(s');
      Holds(m[f.p := if f.dir == L then m[f.p].(left := q) else m[f.p].(right := q)], Fill(f, s'))
  {
    var q := Top(s');
    var m' := m[f.p := if f.dir == L then m[f.p].(left := q) else m[f.p].(right := q)];
    HoldsFrame(m0, m', f.sib);
    HoldsFrame(m, m', s');
  }

  // A spare cell filled with the children of a node holds a copy of it.
  lemma TakesOver(m: Memory, m': Memory, s: Shape, s': Shape)
    requires Holds(m, s) && s.Node? && s'.Node? && s'.p != 0 && s'.p !in Ptrs(s) && s'.left == s.left && s'.right == s.right
    requires m' == m[s'.p := Cell(s'.key, s'.val, Top(s.left), Top(s.right), s'.depth)]
    ensures Holds(m', s')
  {
    HoldsFrame(m, m', s.left);
    HoldsFrame(m, m', s.right);
  }

  // Storing what a slot already holds changes nothing.
  lemma SameSlot(st: Store, st': Store, ctx: seq<Frame>)
    requires HasSlot(st, SlotOf(ctx)) && st'.root == st.root && Agree(st.mem, st'.mem, PathPtrs(ctx))
    ensures HasSlot(st', SlotOf(ctx)) && Put(st', SlotOf(ctx), Get(st, SlotOf(ctx))) == st'
  {
    if ctx != [] {
      assert ctx[|ctx| - 1].p in PathPtrs(ctx);
      var slot := SlotOf(ctx);
      assert st'.mem[slot.p] == st.mem[slot.p];
      assert Put(st', slot, Get(st, slot)).mem == st'.mem;
    }
  }

  /////////////// The memory side of rotations ///////////////

  function DepthIn(m: Memory, p: Ptr): nat {
    if p != 0 && p in m then m[p].depth else 0
  }

  // bt_calcdepth
  function Recomputed(m: Memory, p: Ptr): Memory
    requires p in m
  {
    m[p := m[p].(depth := Max(DepthIn(m, m[p].left), DepthIn(m, m[p].right)) + 1)]
  }

  lemma DepthHeld(m: Memory, s: Shape)
    requires Holds(m, s)
    ensures DepthIn(m, Top(s)) == Depth(s)
  {
  }

  // Recomputing the depth of a node whose other fields are in place.
  lemma RecomputedHolds(m: Memory, s: Shape, d: nat)
    requires s.Node? && Holds(m, s.(depth := d))
    ensures Holds(Recomputed(m, s.p), Recalc(s))
    ensures forall p | p in m && p != s.p :: Recomputed(m, s.p)[p] == m[p]
  {
    DepthHeld(m, s.left);
    DepthHeld(m, s.right);
    HoldsFrame(m, Recomputed(m, s.p), s.left);
    HoldsFrame(m, Recomputed(m, s.p), s.right);
  }

  // bt_rotleft up to the store into the slot: relink, then recompute h and x.
  function Relinked(m: Memory, h: Ptr, x: Ptr, dir: Dir): Memory
    requires h in m && x in m
  {
    if dir == L then
      var m1 := m[h := m[h].(right := m[x].left)];
      m1[x := m1[x].(left := h)]
    else
      var m1 := m[h := m[h].(left := m[x].right)];
      m1[x := m1[x].(right := h)]
  }

  function Rotated(m: Memory, h: Ptr, x: Ptr, dir: Dir): Memory
    requires h in m && x in m
  {
    Recomputed(Recomputed(Relinked(m, h, x, dir), h), x)
  }

  lemma {:induction false} RotLeftHolds(m: Memory, h: Shape)
    requires Holds(m, h) && h.Node? && h.right.Node? && h.right.p in m
    ensures var m' := Rotated(m, h.p, h.right.p, L);
      Holds(m', RotLeft(h)) && m'.Keys == m.Keys && forall p | p in m && p !in Ptrs(h) :: m'[p] == m[p]
  {
    var x := h.right;
    var m1 := Relinked(m, h.p, x.p, L);
    HoldsFrame(m, m1, h.left);
    HoldsFrame(m, m1, x.left);
    HoldsFrame(m, m1, x.right);
    var h1 := h.(right := x.left);
    assert Holds(m1, h1);
    var x1 := x.(left := h1);
    assert Holds(m1, x1);
    RotatedHolds(m1, h1, x1, L);
  }

  lemma {:induction false} RotRightHolds(m: Memory, h: Shape)
    requires Holds(m, h) && h.Node? && h.left.Node? && h.left.p in m
    ensures var m' := Rotated(m, h.p, h.left.p, R);
      Holds(m', RotRight(h)) && m'.Keys == m.Keys && forall p | p in m && p !in Ptrs(h) :: m'[p] == m[p]
  {
    var x := h.left;
    var m1 := Relinked(m, h.p, x.p, R);
    HoldsFrame(m, m1, h.right);
    HoldsFrame(m, m1, x.left);
    HoldsFrame(m, m1, x.right);
    var h1 := h.(left := x.right);
    assert Holds(m1, h1);
    var x1 := x.(right := h1);
    assert Holds(m1, x1);
    RotatedHolds(m1, h1, x1, R);
  }

  lemma RotatedHolds(m: Memory, h: Shape, x: Shape, dir: Dir)
    requires Holds(m, x) && x.Node? && h.Node? && h == (if dir == L then x.left else x.right) && h.p in m
    ensures var m' := Recomputed(Recomputed(m, h.p), x.p);
      && Holds(m', Recalc(if dir == L then x.(left := Recalc(h)) else x.(right := Recalc(h))))
      && m'.Keys == m.Keys && forall p | p in m && p != h.p && p != x.p :: m'[p] == m[p]
  {
    RecomputedHolds(m, h, h.depth);
    var m1 := Recomputed(m, h.p);
    HoldsFrame(m, m1, if dir == L then x.right else x.left);
    var x1 := if dir == L then x.(left := Recalc(h)) else x.(right := Recalc(h));
    assert Ptrs(Recalc(h)) == Ptrs(h);
    assert Holds(m1, x1);
    RecomputedHolds(m1, x1, x.depth);
  }

  function Rotation(h: Shape, dir: Dir): Shape
    requires h.Node? && (if dir == L then h.right.Node? else h.left.Node?)
  {
    if dir == L then RotLeft(h) else RotRight(h)
  }

  // A whole rotation at a slot: relink, recompute, store into the slot.
  lemma RotationStored(st: Store, ctx: seq<Frame>, h: Shape, dir: Dir)
    requires Rooted(st, Plug(ctx, h))
    requires h.Node? && (if dir == L then h.right.Node? else h.left.Node?)
    ensures var x := if dir == L then h.right else h.left;
      && h.p in st.mem && x.p in st.mem
      && var m := Rotated(st.mem, h.p, x.p, dir);
        && HasSlot(Store(m, st.root), SlotOf(ctx))
        && var st' := Put(Store(m, st.root), SlotOf(ctx), x.p);
          && Rooted(st', Plug(ctx, Rotation(h, dir)))
          && st'.mem.Keys == st.mem.Keys
          && (forall p | p in st.mem && p !in Ptrs(Plug(ctx, h)) :: st'.mem[p] == st.mem[p])
    ensures Ptrs(Plug(ctx, Rotation(h, dir))) == Ptrs(Plug(ctx, h))
  {
    Focus(st, ctx, h);
    PlugPtrs(ctx, h);
    PlugPtrs(ctx, Rotation(h, dir));
    if dir == L {
      RotLeftHolds(st.mem, h);
      RotLeftKeepsOrder(h);
      Replace(st, Rotated(st.mem, h.p, h.right.p, L), ctx, h, RotLeft(h));
    } else {
      RotRightHolds(st.mem, h);
      RotRightKeepsOrder(h);
      Replace(st, Rotated(st.mem, h.p, h.left.p, R), ctx, h, RotRight(h));
    }
  }
}
