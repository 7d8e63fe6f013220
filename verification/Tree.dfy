// The balanced tree in place (system/vm/tree.c): pointer surgery on cells and a
// stack of the last 64 slots of the path, wrapped around.
module Tree {
  import opened Basics
  import opened TreeShape
  import opened TreeMemory

  // The path of a search for `k`, the subtree at its end, and the number of slots
  // it visits.
  function PathTo(s: Shape, k: nat): seq<Frame> {
    if s.Leaf? || s.key == k then []
    else if k < s.key then [FrameOf(s, L)] + PathTo(s.left, k)
    else [FrameOf(s, R)] + PathTo(s.right, k)
  }

  function EndOf(s: Shape, k: nat): Shape {
    if s.Leaf? || s.key == k then s
    else if k < s.key then EndOf(s.left, k)
    else EndOf(s.right, k)
  }

  function Slots(s: Shape, k: nat): nat {
    |PathTo(s, k)| + 1
  }

  // A search for `k` in `shape` that has come down to `s` along `ctx`.
  ghost predicate OnTheWay(shape: Shape, ctx: seq<Frame>, s: Shape, k: nat) {
    ctx + PathTo(s, k) == PathTo(shape, k) && EndOf(s, k) == EndOf(shape, k)
  }

  lemma OneFurther(shape: Shape, ctx: seq<Frame>, s: Shape, k: nat, dir: Dir)
    requires OnTheWay(shape, ctx, s, k) && s.Node? && (if dir == L then k < s.key else s.key < k)
    ensures OnTheWay(shape, ctx + [FrameOf(s, dir)], if dir == L then s.left else s.right, k)
  {
    var s' := if dir == L then s.left else s.right;
    assert ctx + ([FrameOf(s, dir)] + PathTo(s', k)) == (ctx + [FrameOf(s, dir)]) + PathTo(s', k);
  }

  // The depths after the end of the search path for `k` in `was` has become `s` and
  // the last 64 slots of the path have been balanced.
  ghost predicate Refreshed(was: Shape, shape: Shape, k: nat, s: Shape) {
    var ctx, focus := PathTo(was, k), EndOf(was, k);
    Exact(was) ==>
      if |ctx| + 1 <= 64 then Exact(shape) && Depth(shape) <= Depth(was) + (if focus.Leaf? then 1 else 0)
      else (Exact(shape) <==> KeepsHeight(ctx, focus, s)) && (DeepBeside(ctx, focus) ==> Exact(shape))
  }

  // A new node at the end of a search path: alone, or in the place of the old one.
  ghost function Renewed(focus: Shape, it: Ptr, k: nat, v: Value, depth: nat): Shape {
    if focus.Leaf? then Node(it, k, v, depth, Leaf, Leaf) else focus.(p := it, val := v)
  }

  // Is `k` less than all keys, or greater than all?
  ghost predicate Outermost(contents: map<nat, Value>, k: nat) {
    (forall x | x in contents :: x < k) || (forall x | x in contents :: k < x)
  }

  // A level tree of fewer than 2^32 - 1 nodes stays level when a new least or
  // greatest key is inserted.
  ghost predicate StaysLevel(was: Shape, shape: Shape, k: nat) {
    Exact(was) && Level(was) && Size(was) + 1 < WORD32 && Outermost(Contents(was), k) ==> Level(shape)
  }

  lemma {:induction false} EdgeSearch(s: Shape, k: nat, dir: Dir)
    requires forall e | e in InOrder(s) :: if dir == L then k < e.0 else e.0 < k
    ensures PathTo(s, k) == Edge(s, dir) && EndOf(s, k).Leaf?
  {
    if s.Node? {
      assert (s.key, s.val) in InOrder(s);
      assert forall e | e in InOrder(Side(s, dir)) :: e in InOrder(s);
      EdgeSearch(Side(s, dir), k, dir);
    }
  }

  lemma {:induction false} LevelFits(s: Shape, dir: Dir)
    requires Exact(s) && Level(s) && Size(s) + 1 < WORD32
    ensures |Edge(s, dir)| + 1 <= 64
  {
    LevelSize(s);
    EdgeLength(s, dir);
    assert Pow2(4) == 16;
    PowSum(4, 4);
    PowSum(8, 8);
    PowSum(16, 16);
    if Depth(s) >= 64 {
      PowMonotone(32, Depth(s) / 2);
    }
  }

  lemma {:induction false} EdgeInserted(was: Shape, x: Shape)
    requires Ordered(InOrder(was)) && x.Node? && (EndOf(was, x.key).Leaf? ==> x.left.Leaf? && x.right.Leaf?)
    ensures var path := PathTo(was, x.key);
      StaysLevel(was, Up(path, x, if |path| + 1 <= 64 then |path| + 1 else 64), x.key)
  {
    var k := x.key;
    if Exact(was) && Level(was) && Size(was) + 1 < WORD32 && Outermost(Contents(was), k) {
      var es := InOrder(was);
      forall e | e in es ensures e.0 in Contents(was) {
        var i :| 0 <= i < |es| && es[i] == e;
        MapOfAt(es, i);
      }
      var dir := if forall y | y in Contents(was) :: k < y then L else R;
      EdgeSearch(was, k, dir);
      LevelFits(was, dir);
      EdgeInsertLevel(was, dir, x);
    }
  }

  lemma AtTheTop(shape: Shape, k: nat)
    ensures OnTheWay(shape, [], shape, k)
  {
  }

  lemma AtTheEnd(shape: Shape, ctx: seq<Frame>, s: Shape, k: nat)
    requires OnTheWay(shape, ctx, s, k) && (s.Leaf? || s.key == k)
    ensures ctx == PathTo(shape, k) && s == EndOf(shape, k)
  {
  }

  // m64
  function Wrap(i: int): (r: nat)
    ensures r < 64
  {
    i % 64
  }

  // The slot stack with its index at i == 64 + n, after a path of n slots below
  // the slot at `base`, of which those above index `top` have been taken off
  // again: it holds the last 64 slots and nothing else.
  ghost predicate Stack(narr: seq<Option<Slot>>, ctx: seq<Frame>, base: nat, top: int)
    requires |narr| == 64 && base <= |ctx|
  {
    var n := |ctx| - base;
    forall j | n < j <= n + 64 ::
      narr[Wrap(j)] == if 64 <= j <= top then Some(SlotOf(ctx[..base + j - 64])) else None
  }

  lemma SameEntry(j: int, k: int, n: int)
    requires n < j <= n + 64 && n < k <= n + 64 && Wrap(j) == Wrap(k)
    ensures j == k
  {
  }

  class BinTree {
    var mem: Memory
    var root: Ptr
    ghost var shape: Shape

    ghost function View(): Store
      reads this
    {
      Store(mem, root)
    }

    ghost predicate Valid()
      reads this
    {
      Rooted(View(), shape) && Ordered(InOrder(shape))
    }

    // A node outside the tree, ready to be put into it.
    ghost predicate Spare(p: Ptr)
      reads this
    {
      p != 0 && p in mem && p !in Ptrs(shape)
    }

    constructor (cells: Memory)
      ensures Valid() && shape == Leaf && mem == cells
    {
      mem, root, shape := cells, 0, Leaf;
    }

    method Read(slot: Slot) returns (p: Ptr)
      requires HasSlot(View(), slot)
      ensures p == Get(View(), slot)
    {
      match slot {
        case RootSlot => p := root;
        case LeftSlot(q) => p := mem[q].left;
        case RightSlot(q) => p := mem[q].right;
      }
    }

    method Write(slot: Slot, p: Ptr)
      requires HasSlot(View(), slot)
      modifies this
      ensures View() == Put(old(View()), slot, p) && shape == old(shape)
    {
      match slot {
        case RootSlot => root := p;
        case LeftSlot(q) => mem := mem[q := mem[q].(left := p)];
        case RightSlot(q) => mem := mem[q := mem[q].(right := p)];
      }
    }

    // bt_calcdepth
    method CalcDepth(p: Ptr)
      requires p != 0 && p in mem
      modifies this`mem
      ensures mem == Recomputed(old(mem), p)
    {
      var l, r := mem[p].left, mem[p].right;
      mem := mem[p := mem[p].(depth := Max(DepthIn(mem, l), DepthIn(mem, r)) + 1)];
    }

    // The cells outside the tree are left alone.
    twostate predicate OthersKept()
      reads this
    {
      forall p | p in old(mem) && p !in old(Ptrs(shape)) :: p in mem && mem[p] == old(mem[p])
    }

    method RotateLeft(slot: Slot, ghost ctx: seq<Frame>, ghost h: Shape)
      requires Rooted(View(), shape) && shape == Plug(ctx, h) && slot == SlotOf(ctx)
      requires h.Node? && h.right.Node?
      modifies this
      ensures Rooted(View(), shape) && shape == Plug(ctx, RotLeft(h))
      ensures Ptrs(shape) == old(Ptrs(shape)) && mem.Keys == old(mem.Keys) && OthersKept()
    {
      hide Plug;
      hide Ptrs;
      ghost var st := View();
      Focus(st, ctx, h);
      RotationStored(st, ctx, h, L);
      var hp := Read(slot);
      var xp := mem[hp].right;
      mem := mem[hp := mem[hp].(right := mem[xp].left)];
      mem := mem[xp := mem[xp].(left := hp)];
      CalcDepth(hp);
      CalcDepth(xp);
      assert mem == Rotated(st.mem, hp, xp, L);
      Write(slot, xp);
      shape := Plug(ctx, RotLeft(h));
    }

    method RotateRight(slot: Slot, ghost ctx: seq<Frame>, ghost h: Shape)
      requires Rooted(View(), shape) && shape == Plug(ctx, h) && slot == SlotOf(ctx)
      requires h.Node? && h.left.Node?
      modifies this
      ensures Rooted(View(), shape) && shape == Plug(ctx, RotRight(h))
      ensures Ptrs(shape) == old(Ptrs(shape)) && mem.Keys == old(mem.Keys) && OthersKept()
    {
      hide Plug;
      hide Ptrs;
      ghost var st := View();
      Focus(st, ctx, h);
      RotationStored(st, ctx, h, R);
      var hp := Read(slot);
      var xp := mem[hp].left;
      mem := mem[hp := mem[hp].(left := mem[xp].right)];
      mem := mem[xp := mem[xp].(right := hp)];
      CalcDepth(hp);
      CalcDepth(xp);
      assert mem == Rotated(st.mem, hp, xp, R);
      Write(slot, xp);
      shape := Plug(ctx, RotRight(h));
    }

    // bt_balance
    method BalanceAt(slot: Slot, ghost ctx: seq<Frame>, ghost s: Shape)
      requires Rooted(View(), shape) && shape == Plug(ctx, s) && slot == SlotOf(ctx)
      modifies this
      ensures Rooted(View(), shape) && shape == Plug(ctx, Balance(s))
      ensures Ptrs(shape) == old(Ptrs(shape)) && mem.Keys == old(mem.Keys) && OthersKept()
    {
      ghost var st := View();
      Focus(st, ctx, s);
      var h := Read(slot);
      if h == 0 {
        return;
      }
      DepthHeld(mem, s.left);
      DepthHeld(mem, s.right);
      var l, r := DepthIn(mem, mem[h].left), DepthIn(mem, mem[h].right);
      if l > r && l - r > 1 {
        RotateRight(slot, ctx, s);
      } else if r > l && r - l > 1 {
        RotateLeft(slot, ctx, s);
      } else {
        CalcDepth(h);
        PlugPtrs(ctx, s);
        RecomputedHolds(st.mem, s, s.depth);
        Replace(st, mem, ctx, s, Recalc(s));
        SameSlot(st, View(), ctx);
        shape := Plug(ctx, Recalc(s));
        PlugPtrs(ctx, Recalc(s));
      }
    }

    // The backtracking loop: balance the slots on the stack, newest first.
    method Backtrack(narr: array<Option<Slot>>, i0: int, ghost ctx: seq<Frame>, ghost base: nat, ghost s: Shape)
      requires Rooted(View(), shape) && shape == Plug(ctx, s) && base <= |ctx|
      requires narr.Length == 64 && i0 == 64 + |ctx| - base && Stack(narr[..], ctx, base, i0)
      modifies this, narr
      ensures Rooted(View(), shape)
      ensures shape == Up(ctx, s, if i0 - 63 <= 64 then i0 - 63 else 64)
      ensures Ptrs(shape) == old(Ptrs(shape)) && mem.Keys == old(mem.Keys) && OthersKept()
    {
      hide Balance;
      hide Holds;
      hide Ptrs;
      hide Get;
      hide Put;
      ghost var n := |ctx| - base;
      ghost var total := if n + 1 <= 64 then n + 1 else 64;
      ghost var c, cur := ctx, s;
      var i := i0;
      assert ctx[..|ctx|] == ctx;
      while narr[Wrap(i)].Some?
        invariant 63 <= i <= 64 + n && n <= i
        invariant Stack(narr[..], ctx, base, i)
        invariant i == n ==> narr[Wrap(i)].None?
        invariant c == ctx[..if base + i - 64 >= 0 then base + i - 64 else 0]
        invariant Rooted(View(), shape) && shape == Plug(c, cur)
        invariant 64 + n - i <= total && Up(c, cur, total - (64 + n - i)) == Up(ctx, s, total)
        invariant Ptrs(shape) == old(Ptrs(shape)) && mem.Keys == old(mem.Keys) && OthersKept()
        decreases i
      {
        assert n < i && 64 <= i;
        var slot := narr[Wrap(i)].value;
        assert slot == SlotOf(c);
        BalanceAt(slot, c, cur);
        ghost var stack := narr[..];
        narr[Wrap(i)] := None;
        PopSlot(stack, narr[..], ctx, base, i);
        if c == [] {
          cur := Balance(cur);
        } else {
          cur, c := Fill(c[|c| - 1], Balance(cur)), c[..|c| - 1];
        }
        i := i - 1;
        if i == n {
          assert Wrap(i) == Wrap(n + 64);
        }
      }
      if i > n {
        assert narr[..][Wrap(i)].None?;
      }
      assert 64 + n - i == total;
    }

    // The search of bt_insert, bt_put and bt_put_ip, with the slots it leaves on
    // the stack.
    method Descend(k: nat)
      returns (slot: Slot, narr: array<Option<Slot>>, i: int, ghost ctx: seq<Frame>, ghost focus: Shape)
      requires Valid()
      ensures fresh(narr) && narr.Length == 64
      ensures shape == Plug(ctx, focus) && slot == SlotOf(ctx)
      ensures i == 64 + |ctx| && Stack(narr[..], ctx, 0, i)
      ensures focus.Leaf? || focus.key == k
      ensures Between(ctx, k)
      ensures ctx == PathTo(shape, k) && focus == EndOf(shape, k)
    {
      hide InOrder;
      hide Ptrs;
      hide OnTheWay;
      narr := new Option<Slot>[64](_ => None);
      i := 64;
      slot := RootSlot;
      narr[Wrap(i)] := Some(slot);
      ctx, focus := [], shape;
      AtTheTop(shape, k);
      forall j | 0 < j <= 64 ensures narr[..][Wrap(j)] == if 64 <= j <= i then Some(SlotOf(ctx[..j - 64])) else None {
        if Wrap(j) == Wrap(64) {
          SameEntry(j, 64, 0);
        }
      }
      Focus(View(), ctx, focus);
      var n := Read(slot);
      while n != 0 && mem[n].key != k
        invariant shape == Plug(ctx, focus) && slot == SlotOf(ctx) && n == Top(focus)
        invariant Holds(mem, focus)
        invariant narr.Length == 64 && fresh(narr) && i == 64 + |ctx| && Stack(narr[..], ctx, 0, i)
        invariant Between(ctx, k) && OnTheWay(shape, ctx, focus, k)
        decreases focus
      {
        ghost var stack, ctx0 := narr[..], ctx;
        PlugInOrder(ctx, focus);
        if k < mem[n].key {
          slot := LeftSlot(n);
          GoDown(ctx, focus, k, L);
          OneFurther(shape, ctx, focus, k, L);
          ctx, focus := ctx + [FrameOf(focus, L)], focus.left;
        } else {
          slot := RightSlot(n);
          GoDown(ctx, focus, k, R);
          OneFurther(shape, ctx, focus, k, R);
          ctx, focus := ctx + [FrameOf(focus, R)], focus.right;
        }
        i := i + 1;
        narr[Wrap(i)] := Some(slot);
        PushSlot(stack, narr[..], ctx0, ctx, 0, i);
        Focus(View(), ctx, focus);
        n := Read(slot);
      }
      AtTheEnd(shape, ctx, focus, k);
    }

    // (*it)->left = (*it)->right = 0
    method Detach(it: Ptr)
      requires Valid() && Spare(it)
      modifies this`mem
      ensures Valid() && Spare(it)
      ensures mem == old(mem)[it := old(mem[it]).(left := 0, right := 0)]
    {
      mem := mem[it := mem[it].(left := 0, right := 0)];
      HoldsFrame(old(mem), mem, shape);
    }

    // Storing a pointer to a tree of spare and old nodes into a slot.
    method Link(slot: Slot, p: Ptr, ghost ctx: seq<Frame>, ghost s: Shape, ghost s': Shape)
      requires Rooted(View(), shape) && shape == Plug(ctx, s) && slot == SlotOf(ctx)
      requires p == Top(s') && Holds(mem, s') && Ptrs(s') !! PathPtrs(ctx)
      modifies this
      ensures Rooted(View(), shape) && shape == Plug(ctx, s')
      ensures Ptrs(shape) == PathPtrs(ctx) + Ptrs(s') && mem.Keys == old(mem.Keys)
      ensures forall q | q in old(mem) && q !in PathPtrs(ctx) :: mem[q] == old(mem[q])
    {
      Focus(View(), ctx, s);
      Replace(View(), mem, ctx, s, s');
      Write(slot, p);
      shape := Plug(ctx, s');
      PlugPtrs(ctx, s');
      assert slot.RootSlot? || slot.p in PathPtrs(ctx);
    }

    // The backtracking of an operation that has replaced the end `focus` of its
    // search path in the tree `was` by `s`.
    method Settle(narr: array<Option<Slot>>, i: int, ghost was: Shape, ghost ctx: seq<Frame>, ghost focus: Shape, ghost s: Shape)
      requires Rooted(View(), shape) && shape == Plug(ctx, s)
      requires narr.Length == 64 && i == 64 + |ctx| && Stack(narr[..], ctx, 0, i)
      requires Ordered(InOrder(was)) && was == Plug(ctx, focus) && SameBut(focus, s) && Between(ctx, s.key)
      requires ctx == PathTo(was, s.key) && focus == EndOf(was, s.key)
      modifies this, narr
      ensures Valid() && Contents(shape) == Contents(was)[s.key := s.val]
      ensures Ptrs(shape) == old(Ptrs(shape)) && mem.Keys == old(mem.Keys) && OthersKept()
      ensures Refreshed(was, shape, s.key, s) && StaysLevel(was, shape, s.key)
    {
      Backtrack(narr, i, ctx, 0, s);
      NewEntry(was, ctx, focus, s, if |ctx| + 1 <= 64 then |ctx| + 1 else 64);
      EdgeInserted(was, s);
      hide StaysLevel;
      if Exact(was) && |ctx| + 1 <= 64 {
        PlugExact(ctx, focus);
        UpExact(ctx, s, |ctx| + 1);
        UpGrows(ctx, focus, s, |ctx| + 1, if focus.Leaf? then 1 else 0);
      } else if Exact(was) {
        PlugExact(ctx, focus);
        LongPathExactIff(ctx, focus, s);
      }
    }

    // bt_insert: adds the node unless its key is there; `rest` is what *it is
    // afterwards.
    method Insert(it: Ptr) returns (rest: Ptr)
      requires Valid() && Spare(it)
      modifies this
      ensures Valid()
      ensures var k, v := old(mem[it].key), old(mem[it].val);
        if k in old(Contents(shape)) then rest == it && shape == old(shape)
        else
          && rest == 0
          && Contents(shape) == old(Contents(shape))[k := v]
          && Ptrs(shape) == old(Ptrs(shape)) + {it}
      ensures old(Exact(shape)) && Slots(old(shape), old(mem[it].key)) <= 64 ==>
                Exact(shape) && Depth(shape) <= old(Depth(shape)) + 1
      ensures StaysLevel(old(shape), shape, old(mem[it].key))
      ensures rest == 0 ==>
                Refreshed(old(shape), shape, old(mem[it].key),
                          Node(it, old(mem[it].key), old(mem[it].val), old(mem[it].depth), Leaf, Leaf))
    {
      hide Plug;
      hide PathTo;
      hide EndOf;
      hide KeepsHeight;
      hide DeepBeside;
      hide Level;
      hide MapOf;
      hide InOrder;
      Detach(it);
      var k := mem[it].key;
      var slot, narr, i;
      ghost var was, ctx, focus := shape, [], Leaf;
      slot, narr, i, ctx, focus := Descend(k);
      SearchMeans(was, ctx, focus, k);
      Focus(View(), ctx, focus);
      var n := Read(slot);
      if n != 0 {
        return it;
      }
      rest := 0;
      ghost var s := Node(it, k, mem[it].val, mem[it].depth, Leaf, Leaf);
      PlugPtrs(ctx, focus);
      Link(slot, it, ctx, focus, s);
      Settle(narr, i, was, ctx, focus, s);
    }

    // The new node takes over the children and the depth of the old one, and its slot.
    method Substitute(slot: Slot, n: Ptr, it: Ptr, ghost ctx: seq<Frame>, ghost focus: Shape)
      requires Rooted(View(), shape) && shape == Plug(ctx, focus) && slot == SlotOf(ctx)
      requires Spare(it) && focus.Node? && focus.p == n && mem[it].key == focus.key
      modifies this
      ensures Rooted(View(), shape)
      ensures shape == Plug(ctx, Node(it, focus.key, old(mem[it].val), focus.depth, focus.left, focus.right))
      ensures n in old(Ptrs(shape)) && Ptrs(shape) == old(Ptrs(shape)) - {n} + {it}
      ensures n in mem && n in old(mem) && mem[n] == old(mem[n])
    {
      hide Plug;
      hide PathPtrs;
      ghost var m := mem;
      Focus(View(), ctx, focus);
      PlugPtrs(ctx, focus);
      mem := mem[it := mem[it].(left := mem[n].left, right := mem[n].right, depth := mem[n].depth)];
      HoldsFrame(m, mem, shape);
      ghost var s := Node(it, focus.key, m[it].val, focus.depth, focus.left, focus.right);
      TakesOver(m, mem, focus, s);
      Link(slot, it, ctx, focus, s);
    }

    // bt_put: adds the node, or puts it in the place of the node that has its
    // key; that node is handed back.
    method PutNode(it: Ptr) returns (rest: Ptr)
      requires Valid() && Spare(it)
      modifies this
      ensures Valid()
      ensures var k, v := old(mem[it].key), old(mem[it].val);
        && Contents(shape) == old(Contents(shape))[k := v]
        && it in Ptrs(shape)
        && (k !in old(Contents(shape)) ==> rest == 0 && Ptrs(shape) == old(Ptrs(shape)) + {it})
        && (k in old(Contents(shape)) ==>
              && rest in old(Ptrs(shape)) && Ptrs(shape) == old(Ptrs(shape)) - {rest} + {it}
              && Spare(rest) && mem[rest].key == k && mem[rest].val == old(Contents(shape))[k])
      ensures old(Exact(shape)) && Slots(old(shape), old(mem[it].key)) <= 64 ==>
                Exact(shape) && Depth(shape) <= old(Depth(shape)) + 1
      ensures StaysLevel(old(shape), shape, old(mem[it].key))
      ensures var k := old(mem[it].key);
        Refreshed(old(shape), shape, k, Renewed(EndOf(old(shape), k), it, k, old(mem[it].val), old(mem[it].depth)))
    {
      hide Plug;
      hide PathTo;
      hide EndOf;
      hide KeepsHeight;
      hide DeepBeside;
      hide Level;
      hide MapOf;
      hide InOrder;
      Detach(it);
      var k, v := mem[it].key, mem[it].val;
      var slot, narr, i;
      ghost var was, ctx, focus := shape, [], Leaf;
      slot, narr, i, ctx, focus := Descend(k);
      SearchMeans(was, ctx, focus, k);
      Focus(View(), ctx, focus);
      PlugPtrs(ctx, focus);
      var n := Read(slot);
      ghost var s := Node(it, k, v, mem[it].depth, Leaf, Leaf);
      if n == 0 {
        rest := 0;
        Link(slot, it, ctx, focus, s);
      } else {
        Substitute(slot, n, it, ctx, focus);
        s := Node(it, k, v, focus.depth, focus.left, focus.right);
        rest := n;
      }
      Settle(narr, i, was, ctx, focus, s);
    }

    // n->V = v
    method SetValue(n: Ptr, v: Value, ghost ctx: seq<Frame>, ghost focus: Shape)
      requires Rooted(View(), shape) && shape == Plug(ctx, focus) && focus.Node? && focus.p == n
      modifies this
      ensures Rooted(View(), shape) && shape == Plug(ctx, focus.(val := v)) && Ptrs(shape) == old(Ptrs(shape))
    {
      hide Plug;
      ghost var st, s := View(), focus.(val := v);
      Focus(st, ctx, focus);
      PlugPtrs(ctx, focus);
      PlugPtrs(ctx, s);
      mem := mem[n := mem[n].(val := v)];
      HoldsFrame(st.mem, mem, focus.left);
      HoldsFrame(st.mem, mem, focus.right);
      Replace(st, mem, ctx, focus, s);
      SameSlot(st, View(), ctx);
      shape := Plug(ctx, s);
    }

    // bt_put_ip: adds the node, or copies its value into the node that has its key.
    method PutInPlace(it: Ptr) returns (rest: Ptr)
      requires Valid() && Spare(it)
      modifies this
      ensures Valid()
      ensures var k, v := old(mem[it].key), old(mem[it].val);
        && Contents(shape) == old(Contents(shape))[k := v]
        && (k !in old(Contents(shape)) ==> rest == 0 && Ptrs(shape) == old(Ptrs(shape)) + {it})
        && (k in old(Contents(shape)) ==> rest == it && Ptrs(shape) == old(Ptrs(shape)))
      ensures old(Exact(shape)) && Slots(old(shape), old(mem[it].key)) <= 64 ==>
                Exact(shape) && Depth(shape) <= old(Depth(shape)) + 1
      ensures StaysLevel(old(shape), shape, old(mem[it].key))
      ensures var k, v, focus := old(mem[it].key), old(mem[it].val), EndOf(old(shape), old(mem[it].key));
        Refreshed(old(shape), shape, k,
                  if focus.Node? then focus.(val := v) else Node(it, k, v, old(mem[it].depth), Leaf, Leaf))
    {
      hide Plug;
      hide PathTo;
      hide EndOf;
      hide KeepsHeight;
      hide DeepBeside;
      hide Level;
      hide MapOf;
      hide InOrder;
      Detach(it);
      var k, v := mem[it].key, mem[it].val;
      var slot, narr, i;
      ghost var was, ctx, focus := shape, [], Leaf;
      slot, narr, i, ctx, focus := Descend(k);
      SearchMeans(was, ctx, focus, k);
      Focus(View(), ctx, focus);
      PlugPtrs(ctx, focus);
      var n := Read(slot);
      ghost var s := Node(it, k, v, mem[it].depth, Leaf, Leaf);
      if n == 0 {
        rest := 0;
        Link(slot, it, ctx, focus, s);
      } else {
        SetValue(n, v, ctx, focus);
        s := focus.(val := v);
        rest := it;
      }
      Settle(narr, i, was, ctx, focus, s);
    }

    // The loop of bt_remove: the node in the slot is rotated down until it lacks
    // a child, and the slots it passes through go on the stack.
    method SinkDown(start: Slot, n: Ptr, narr: array<Option<Slot>>, ghost ctx: seq<Frame>, ghost s: Shape)
      returns (slot: Slot, i: int, ghost path: seq<Frame>, ghost cur: Shape)
      requires Rooted(View(), shape) && shape == Plug(ctx, s) && start == SlotOf(ctx) && s.Node? && n == s.p
      requires narr.Length == 64 && Stack(narr[..], ctx, |ctx|, 64)
      modifies this, narr
      ensures Rooted(View(), shape) && Ptrs(shape) == old(Ptrs(shape))
      ensures path == ctx + Sink(s).0 && cur.Node? && cur.p == n && shape == Plug(path, cur) && slot == SlotOf(path)
      ensures (cur.left.Leaf? && Sink(s).1 == cur.right) || (cur.right.Leaf? && Sink(s).1 == cur.left)
      ensures i == 64 + |path| - |ctx| && Stack(narr[..], path, |ctx|, i)
    {
      hide Balance;
      hide InOrder;
      hide MapOf;
      slot, i := start, 64;
      path, cur := ctx, s;
      assert path + Sink(cur).0 == ctx + Sink(s).0;
      Focus(View(), path, cur);
      while mem[n].left != 0 && mem[n].right != 0
        invariant Rooted(View(), shape) && shape == Plug(path, cur) && slot == SlotOf(path)
        invariant cur.Node? && cur.p == n && Holds(mem, cur) && |ctx| <= |path|
        invariant path + Sink(cur).0 == ctx + Sink(s).0 && Sink(cur).1 == Sink(s).1
        invariant i == 64 + |path| - |ctx| && Stack(narr[..], path, |ctx|, i)
        invariant Ptrs(shape) == old(Ptrs(shape))
        decreases Size(cur)
      {
        DepthHeld(mem, cur.left);
        DepthHeld(mem, cur.right);
        if DepthIn(mem, mem[n].left) <= DepthIn(mem, mem[n].right) {
          RotateLeft(slot, path, cur);
          slot, i, path, cur := Push(slot, i, narr, |ctx|, path, cur, L);
        } else {
          RotateRight(slot, path, cur);
          slot, i, path, cur := Push(slot, i, narr, |ctx|, path, cur, R);
        }
      }
      assert Sink(cur).0 == [] && path + [] == path;
    }

    // After a rotation, follow the old top of the slot one level down.
    method Push(slot0: Slot, i0: int, narr: array<Option<Slot>>, ghost base: nat, ghost path0: seq<Frame>, ghost h: Shape, dir: Dir)
      returns (slot: Slot, i: int, ghost path: seq<Frame>, ghost cur: Shape)
      requires h.Node? && h.left.Node? && h.right.Node? && dir == if Depth(h.left) <= Depth(h.right) then L else R
      requires Rooted(View(), shape) && shape == Plug(path0, Rotation(h, dir)) && slot0 == SlotOf(path0) && base <= |path0|
      requires narr.Length == 64 && i0 == 64 + |path0| - base && Stack(narr[..], path0, base, i0)
      modifies narr
      ensures shape == Plug(path, cur) && slot == SlotOf(path) && |path| == |path0| + 1
      ensures cur.Node? && cur.p == h.p && Holds(mem, cur) && Size(cur) < Size(h)
      ensures path + Sink(cur).0 == path0 + Sink(h).0 && Sink(cur).1 == Sink(h).1
      ensures i == i0 + 1 && Stack(narr[..], path, base, i)
    {
      ghost var x := Rotation(h, dir);
      Focus(View(), path0, x);
      var xp := Read(slot0);
      slot := if dir == L then LeftSlot(xp) else RightSlot(xp);
      path, cur := path0 + [FrameOf(x, dir)], if dir == L then x.left else x.right;
      SinkUnfold(h, dir);
      PathStep(path0, x, dir, Sink(cur).0);
      i := i0 + 1;
      ghost var stack := narr[..];
      narr[Wrap(i)] := Some(slot);
      PushSlot(stack, narr[..], path0, path, base, i);
      Focus(View(), path, cur);
    }

    // The end of bt_remove: the only child takes the place of the node, and the
    // slots on the stack are balanced.
    method CutOut(slot: Slot, i: int, n: Ptr, narr: array<Option<Slot>>,
                  ghost ctx: seq<Frame>, ghost path: seq<Frame>, ghost cur: Shape, ghost s: Shape)
      requires Rooted(View(), shape) && shape == Plug(path, cur) && slot == SlotOf(path) && cur.Node? && cur.p == n
      requires s.Node? && path == ctx + Sink(s).0
      requires (cur.left.Leaf? && Sink(s).1 == cur.right) || (cur.right.Leaf? && Sink(s).1 == cur.left)
      requires narr.Length == 64 && i == 64 + |path| - |ctx| && Stack(narr[..], path, |ctx|, i)
      modifies this, narr
      ensures Rooted(View(), shape) && shape == Plug(ctx, Removed(s))
      ensures Ptrs(shape) == old(Ptrs(shape)) - {n}
    {
      hide PathPtrs;
      hide Sink;
      hide Up;
      hide Plug;
      hide Balance;
      Focus(View(), path, cur);
      PlugPtrs(path, cur);
      ghost var rest := Sink(s).1;
      Link(slot, if mem[n].left == 0 then mem[n].right else mem[n].left, path, cur, rest);
      Backtrack(narr, i, path, |ctx|, rest);
      UpLocal(ctx, Sink(s).0, rest, if i - 63 <= 64 then i - 63 else 64);
    }

    // bt_remove at a slot: the node is rotated down until it lacks a child and
    // is cut out there; `it` is the node that was in the slot, if any.
    method RemoveAt(start: Slot, it0: Ptr, ghost ctx: seq<Frame>, ghost s: Shape) returns (it: Ptr)
      requires Valid() && shape == Plug(ctx, s) && start == SlotOf(ctx)
      modifies this
      ensures Valid()
      ensures s.Leaf? ==> it == it0 && shape == old(shape)
      ensures s.Node? ==>
        && it == s.p && shape == Plug(ctx, Removed(s))
        && s.key in old(Contents(shape)) && Contents(shape) == old(Contents(shape)) - {s.key}
        && Ptrs(shape) == old(Ptrs(shape)) - {s.p}
        && (ExactBelow(s) && |Sink(s).0| + 1 <= 64 ==> Exact(Removed(s)))
      ensures s.Node? && old(Exact(shape)) && PathFits(s) ==>
        && Depth(Removed(s)) <= Depth(s.left) + Depth(s.right)
        && (ctx == [] ==> Exact(shape))
        && (ctx != [] ==>
              var sib := Depth(ctx[|ctx| - 1].sib);
              && (Exact(shape) <==> Max(Depth(Removed(s)), sib) == Max(Depth(s), sib))
              && (s.left.Leaf? || s.right.Leaf? ==> (Exact(shape) <==> sib >= Depth(s)))
              && (sib >= Depth(s) && sib >= Depth(s.left) + Depth(s.right) ==> Exact(shape)))
    {
      it := it0;
      var narr := new Option<Slot>[64](_ => None);
      narr[Wrap(64)] := Some(start);
      FirstSlot(narr[..], ctx);
      Focus(View(), ctx, s);
      var n := Read(start);
      if n == 0 {
        Backtrack(narr, 64, ctx, |ctx|, s);
        UpLocal(ctx, [], Leaf, 1);
        assert ctx + [] == ctx;
        return;
      }
      var slot, i;
      ghost var path, cur;
      slot, i, path, cur := SinkDown(start, n, narr, ctx, s);
      it := n;
      CutOut(slot, i, n, narr, ctx, path, cur, s);
      RemovalMeans(ctx, s);
      if ExactBelow(s) && |Sink(s).0| + 1 <= 64 {
        RemovedExact(s);
      }
      if old(Exact(shape)) && PathFits(s) {
        PlugExact(ctx, s);
        RemovedBound(s);
        RemovalExactIff(ctx, s);
      }
    }

    // bt_lookup
    method Lookup(k: nat) returns (found: Option<Slot>, ghost ctx: seq<Frame>, ghost s: Shape)
      requires Valid()
      ensures found.Some? <==> k in Contents(shape)
      ensures found.Some? ==> Points(shape, found.value, ctx, s) && s.key == k && s.val == Contents(shape)[k]
    {
      hide MapOf;
      hide InOrder;
      var slot := RootSlot;
      ctx, s := [], shape;
      Focus(View(), ctx, s);
      var n := Read(slot);
      while n != 0
        invariant shape == Plug(ctx, s) && slot == SlotOf(ctx) && n == Top(s) && Holds(mem, s) && Between(ctx, k)
        decreases s
      {
        PlugInOrder(ctx, s);
        if k < mem[n].key {
          slot := LeftSlot(n);
          GoDown(ctx, s, k, L);
          ctx, s := ctx + [FrameOf(s, L)], s.left;
        } else if mem[n].key < k {
          slot := RightSlot(n);
          GoDown(ctx, s, k, R);
          ctx, s := ctx + [FrameOf(s, R)], s.right;
        } else {
          SearchMeans(shape, ctx, s, k);
          return Some(slot), ctx, s;
        }
        Focus(View(), ctx, s);
        n := Read(slot);
      }
      SearchMeans(shape, ctx, s, k);
      found := None;
    }

    // bt_floor: the greatest key that is not above `k`.
    method Floor(k: nat) returns (found: Option<Slot>, ghost fctx: seq<Frame>, ghost fs: Shape)
      requires Valid()
      ensures found.None? ==> forall x | x in Contents(shape) :: k < x
      ensures found.Some? ==>
        && Points(shape, found.value, fctx, fs) && fs.key in Contents(shape) && fs.val == Contents(shape)[fs.key]
        && fs.key <= k && forall x | x in Contents(shape) && x <= k :: x <= fs.key
    {
      hide MapOf;
      hide InOrder;
      hide Ptrs;
      hide Ordered;
      var slot := RootSlot;
      ghost var ctx, s := [], shape;
      found, fctx, fs := None, [], Leaf;
      assert Before([]) == [] && After([]) == [];
      hide Before;
      hide After;
      Focus(View(), ctx, s);
      var n := Read(slot);
      while n != 0
        invariant shape == Plug(ctx, s) && slot == SlotOf(ctx) && n == Top(s) && Holds(mem, s) && Between(ctx, k)
        invariant if found.None? then Before(ctx) == [] else
                    Points(shape, found.value, fctx, fs) && Before(ctx) != [] && Before(ctx)[|Before(ctx)| - 1] == (fs.key, fs.val)
        decreases s
      {
        PlugInOrder(ctx, s);
        if k < mem[n].key {
          slot := LeftSlot(n);
          GoDown(ctx, s, k, L);
          LastBefore(ctx, s);
          ctx, s := ctx + [FrameOf(s, L)], s.left;
        } else if mem[n].key < k {
          found, fctx, fs := Some(slot), ctx, s;
          slot := RightSlot(n);
          GoDown(ctx, s, k, R);
          LastBefore(ctx, s);
          ctx, s := ctx + [FrameOf(s, R)], s.right;
        } else {
          SearchMeans(shape, ctx, s, k);
          return Some(slot), ctx, s;
        }
        Focus(View(), ctx, s);
        n := Read(slot);
      }
      NearestBelow(shape, ctx, k);
    }

    // bt_ceiling: the least key that is not below `k`.
    method Ceiling(k: nat) returns (found: Option<Slot>, ghost fctx: seq<Frame>, ghost fs: Shape)
      requires Valid()
      ensures found.None? ==> forall x | x in Contents(shape) :: x < k
      ensures found.Some? ==>
        && Points(shape, found.value, fctx, fs) && fs.key in Contents(shape) && fs.val == Contents(shape)[fs.key]
        && k <= fs.key && forall x | x in Contents(shape) && k <= x :: fs.key <= x
    {
      hide MapOf;
      hide InOrder;
      hide Ptrs;
      hide Ordered;
      var slot := RootSlot;
      ghost var ctx, s := [], shape;
      found, fctx, fs := None, [], Leaf;
      assert Before([]) == [] && After([]) == [];
      hide Before;
      hide After;
      Focus(View(), ctx, s);
      var n := Read(slot);
      while n != 0
        invariant shape == Plug(ctx, s) && slot == SlotOf(ctx) && n == Top(s) && Holds(mem, s) && Between(ctx, k)
        invariant if found.None? then After(ctx) == [] else
                    Points(shape, found.value, fctx, fs) && After(ctx) != [] && After(ctx)[0] == (fs.key, fs.val)
        decreases s
      {
        PlugInOrder(ctx, s);
        if k < mem[n].key {
          found, fctx, fs := Some(slot), ctx, s;
          slot := LeftSlot(n);
          GoDown(ctx, s, k, L);
          FirstAfter(ctx, s);
          ctx, s := ctx + [FrameOf(s, L)], s.left;
        } else if mem[n].key < k {
          slot := RightSlot(n);
          GoDown(ctx, s, k, R);
          FirstAfter(ctx, s);
          ctx, s := ctx + [FrameOf(s, R)], s.right;
        } else {
          SearchMeans(shape, ctx, s, k);
          return Some(slot), ctx, s;
        }
        Focus(View(), ctx, s);
        n := Read(slot);
      }
      NearestAbove(shape, ctx, k);
    }
  }

  // Everything before the end of the path is smaller than `k`, everything after
  // it greater.
  ghost predicate Between(ctx: seq<Frame>, k: nat) {
    (forall e | e in Before(ctx) :: e.0 < k) && (forall e | e in After(ctx) :: k < e.0)
  }

  // What the end of a search says about the map.
  lemma SearchMeans(shape: Shape, ctx: seq<Frame>, focus: Shape, k: nat)
    requires Ordered(InOrder(shape)) && shape == Plug(ctx, focus)
    requires (focus.Leaf? || focus.key == k) && Between(ctx, k)
    ensures focus.Node? <==> k in Contents(shape)
    ensures focus.Node? ==> Contents(shape)[k] == focus.val
  {
    PlugInOrder(ctx, focus);
    var whole := InOrder(shape);
    if focus.Node? {
      var at := |Before(ctx)| + |InOrder(focus.left)|;
      assert whole[at] == (focus.key, focus.val);
      MapOfAt(whole, at);
    } else {
      forall i | 0 <= i < |whole| ensures whole[i].0 != k {
        assert whole[i] in Before(ctx) || whole[i] in After(ctx);
      }
      if k in Contents(shape) {
        var i := MapOfOnly(whole, k);
        assert false;
      }
    }
  }

  // `s` is a node where there was none, or a node with the same key and children.
  ghost predicate SameBut(focus: Shape, s: Shape) {
    && s.Node?
    && (focus.Leaf? ==> s.left.Leaf? && s.right.Leaf?)
    && (focus.Node? ==> s.key == focus.key && s.left == focus.left && s.right == focus.right)
  }

  // Replacing the end of a search path by a subtree that lists the same entries
  // with (k, v) for the key searched for, and balancing any part of the path.
  lemma NewEntry(shape: Shape, ctx: seq<Frame>, focus: Shape, s: Shape, b: nat)
    requires Ordered(InOrder(shape)) && shape == Plug(ctx, focus)
    requires SameBut(focus, s) && Between(ctx, s.key)
    ensures var shape' := Up(ctx, s, b);
      Ordered(InOrder(shape')) && Contents(shape') == Contents(shape)[s.key := s.val]
  {
    PlugInOrder(ctx, focus);
    UpKeepsOrder(ctx, s, b);
    var x, y := InOrder(s.left), InOrder(s.right);
    if focus.Leaf? {
      AddMiddle(Before(ctx), (s.key, s.val), After(ctx));
    } else {
      SetMiddle(Before(ctx), x, (focus.key, focus.val), (s.key, s.val), y, After(ctx));
    }
  }

  lemma AddMiddle(l: seq<Entry>, e: Entry, r: seq<Entry>)
    requires Ordered(l + [] + r)
    requires (forall x | x in l :: x.0 < e.0) && (forall x | x in r :: e.0 < x.0)
    ensures Ordered(l + ([] + [e] + []) + r) && MapOf(l + ([] + [e] + []) + r) == MapOf(l + [] + r)[e.0 := e.1]
  {
    assert l + [] + r == l + r && l + ([] + [e] + []) + r == l + [e] + r;
    OrderedMiddle(l, e, r);
    MapOfMiddle(l, e, r);
  }

  lemma SetMiddle(l: seq<Entry>, x: seq<Entry>, e0: Entry, e: Entry, y: seq<Entry>, r: seq<Entry>)
    requires Ordered(l + (x + [e0] + y) + r) && e0.0 == e.0
    ensures Ordered(l + (x + [e] + y) + r)
    ensures MapOf(l + (x + [e] + y) + r) == MapOf(l + (x + [e0] + y) + r)[e.0 := e.1]
  {
    assert l + (x + [e0] + y) + r == (l + x) + [e0] + (y + r);
    assert l + (x + [e] + y) + r == (l + x) + [e] + (y + r);
    MapOfMiddle(l + x, e0, y + r);
    ChangeMiddle(l + x, e0, e, y + r);
    MapOfMiddle(l + x, e, y + r);
  }

  lemma ChangeMiddle(l: seq<Entry>, e0: Entry, e: Entry, r: seq<Entry>)
    requires Ordered(l + [e0] + r) && e0.0 == e.0
    ensures Ordered(l + [e] + r)
  {
    var a, b := l + [e0] + r, l + [e] + r;
    assert forall i | 0 <= i < |a| :: a[i].0 == b[i].0;
  }

  lemma {:induction false} GoDown(ctx: seq<Frame>, s: Shape, k: nat, dir: Dir)
    requires s.Node? && Between(ctx, k) && (if dir == L then k < s.key else s.key < k)
    requires Ordered(Before(ctx) + InOrder(s) + After(ctx))
    ensures var f := FrameOf(s, dir);
      && Between(ctx + [f], k)
      && Plug(ctx + [f], if dir == L then s.left else s.right) == Plug(ctx, s)
  {
    var f := FrameOf(s, dir);
    assert (ctx + [f])[..|ctx|] == ctx;
    var l, r := InOrder(s.left), InOrder(s.right);
    var whole := Before(ctx) + InOrder(s) + After(ctx);
    var at := |Before(ctx)| + |l|;
    assert whole[at] == (s.key, s.val);
    forall e | e in l ensures e.0 < s.key {
      var i :| 0 <= i < |l| && l[i] == e;
      assert whole[|Before(ctx)| + i] == e;
    }
    forall e | e in r ensures s.key < e.0 {
      var i :| 0 <= i < |r| && r[i] == e;
      assert whole[at + 1 + i] == e;
    }
  }

  // The slot holds the node at the end of the path.
  ghost predicate Points(shape: Shape, slot: Slot, ctx: seq<Frame>, s: Shape) {
    shape == Plug(ctx, s) && slot == SlotOf(ctx) && s.Node?
  }

  lemma LastBefore(ctx: seq<Frame>, s: Shape)
    requires s.Node?
    ensures var b := Before(ctx + [FrameOf(s, R)]); b != [] && b[|b| - 1] == (s.key, s.val)
    ensures Before(ctx + [FrameOf(s, L)]) == Before(ctx)
  {
    assert (ctx + [FrameOf(s, R)])[..|ctx|] == ctx;
    assert (ctx + [FrameOf(s, L)])[..|ctx|] == ctx;
  }

  lemma FirstAfter(ctx: seq<Frame>, s: Shape)
    requires s.Node?
    ensures var a := After(ctx + [FrameOf(s, L)]); a != [] && a[0] == (s.key, s.val)
    ensures After(ctx + [FrameOf(s, R)]) == After(ctx)
  {
    assert (ctx + [FrameOf(s, R)])[..|ctx|] == ctx;
    assert (ctx + [FrameOf(s, L)])[..|ctx|] == ctx;
  }

  // Where a search ends without a hit, the last entry before is the floor ...
  lemma {:induction false} NearestBelow(shape: Shape, ctx: seq<Frame>, k: nat)
    requires Ordered(InOrder(shape)) && shape == Plug(ctx, Leaf) && Between(ctx, k)
    ensures var b := Before(ctx);
      && (b == [] ==> forall x | x in Contents(shape) :: k < x)
      && (b != [] ==>
            var e := b[|b| - 1];
            && e.0 in Contents(shape) && Contents(shape)[e.0] == e.1 && e.0 <= k
            && forall x | x in Contents(shape) && x <= k :: x <= e.0)
  {
    hide Plug;
    hide MapOf;
    PlugInOrder(ctx, Leaf);
    assert InOrder(shape) == Before(ctx) + After(ctx);
    hide InOrder;
    hide Before;
    hide After;
    hide Ordered;
    GreatestBelow(Before(ctx), After(ctx), k);
  }

  lemma GreatestBelow(b: seq<Entry>, a: seq<Entry>, k: nat)
    requires Ordered(b + a) && (forall e | e in b :: e.0 < k) && (forall e | e in a :: k < e.0)
    ensures b == [] ==> forall x | x in MapOf(b + a) :: k < x
    ensures b != [] ==>
      var e := b[|b| - 1];
      && e.0 in MapOf(b + a) && MapOf(b + a)[e.0] == e.1 && e.0 <= k
      && forall x | x in MapOf(b + a) && x <= k :: x <= e.0
  {
    var whole := b + a;
    if b != [] {
      assert whole[|b| - 1] == b[|b| - 1];
      MapOfAt(whole, |b| - 1);
      assert b[|b| - 1] in b;
    }
    forall x | x in MapOf(whole) ensures x <= k ==> b != [] && x <= b[|b| - 1].0 {
      var i := MapOfOnly(whole, x);
      if i >= |b| {
        assert a[i - |b|] in a;
      } else if i < |b| - 1 {
        assert whole[i].0 < whole[|b| - 1].0;
      }
    }
  }

  // ... and the first entry after is the ceiling.
  lemma {:induction false} NearestAbove(shape: Shape, ctx: seq<Frame>, k: nat)
    requires Ordered(InOrder(shape)) && shape == Plug(ctx, Leaf) && Between(ctx, k)
    ensures var a := After(ctx);
      && (a == [] ==> forall x | x in Contents(shape) :: x < k)
      && (a != [] ==>
            && a[0].0 in Contents(shape) && Contents(shape)[a[0].0] == a[0].1 && k <= a[0].0
            && forall x | x in Contents(shape) && k <= x :: a[0].0 <= x)
  {
    hide Plug;
    hide MapOf;
    PlugInOrder(ctx, Leaf);
    assert InOrder(shape) == Before(ctx) + After(ctx);
    hide InOrder;
    hide Before;
    hide After;
    hide Ordered;
    LeastAbove(Before(ctx), After(ctx), k);
  }

  lemma LeastAbove(b: seq<Entry>, a: seq<Entry>, k: nat)
    requires Ordered(b + a) && (forall e | e in b :: e.0 < k) && (forall e | e in a :: k < e.0)
    ensures a == [] ==> forall x | x in MapOf(b + a) :: x < k
    ensures a != [] ==>
      && a[0].0 in MapOf(b + a) && MapOf(b + a)[a[0].0] == a[0].1 && k <= a[0].0
      && forall x | x in MapOf(b + a) && k <= x :: a[0].0 <= x
  {
    var whole := b + a;
    if a != [] {
      assert whole[|b|] == a[0];
      MapOfAt(whole, |b|);
      assert a[0] in a;
    }
    forall x | x in MapOf(whole) ensures k <= x ==> a != [] && a[0].0 <= x {
      var i := MapOfOnly(whole, x);
      if i < |b| {
        assert b[i] in b;
      } else if i > |b| {
        assert whole[|b|].0 < whole[i].0;
      }
    }
  }

  // The stack with one slot on it.
  lemma FirstSlot(narr: seq<Option<Slot>>, ctx: seq<Frame>)
    requires |narr| == 64 && narr == seq(64, _ => None)[Wrap(64) := Some(SlotOf(ctx))]
    ensures Stack(narr, ctx, |ctx|, 64)
  {
    assert ctx[..|ctx|] == ctx;
    forall j | 0 < j <= 64 ensures narr[Wrap(j)] == if 64 <= j <= 64 then Some(SlotOf(ctx[..|ctx| + j - 64])) else None {
      if Wrap(j) == Wrap(64) {
        SameEntry(j, 64, 0);
      }
    }
  }

  lemma PathStep(path: seq<Frame>, x: Shape, dir: Dir, c: seq<Frame>)
    requires x.Node?
    ensures var f, below := FrameOf(x, dir), if dir == L then x.left else x.right;
      Plug(path + [f], below) == Plug(path, x) && path + [f] + c == path + ([f] + c)
  {
    var f := FrameOf(x, dir);
    assert (path + [f])[..|path|] == path;
  }

  // One turn of the removal loop, along the path it makes.
  lemma SinkUnfold(s: Shape, dir: Dir)
    requires s.Node? && s.left.Node? && s.right.Node?
    requires dir == if Depth(s.left) <= Depth(s.right) then L else R
    ensures var x := Rotation(s, dir);
      var below := if dir == L then x.left else x.right;
      && Sink(s) == ([FrameOf(x, dir)] + Sink(below).0, Sink(below).1)
      && below.Node? && below.p == s.p && Size(below) < Size(s)
  {
    if dir == L {
      RotLeftKeepsOrder(s);
    } else {
      RotRightKeepsOrder(s);
    }
  }

  // What the removal means for the map.
  lemma RemovalMeans(ctx: seq<Frame>, s: Shape)
    requires s.Node? && Ordered(InOrder(Plug(ctx, s)))
    ensures Ordered(InOrder(Plug(ctx, Removed(s))))
    ensures s.key in Contents(Plug(ctx, s))
    ensures Contents(Plug(ctx, Removed(s))) == Contents(Plug(ctx, s)) - {s.key}
  {
    PlugInOrder(ctx, s);
    PlugInOrder(ctx, Removed(s));
    RemovedInOrder(s);
    DropMiddle(Before(ctx), InOrder(s.left), (s.key, s.val), InOrder(s.right), After(ctx));
  }

  lemma DropMiddle(l: seq<Entry>, x: seq<Entry>, e: Entry, y: seq<Entry>, r: seq<Entry>)
    requires Ordered(l + (x + [e] + y) + r)
    ensures Ordered(l + (x + y) + r)
    ensures e.0 in MapOf(l + (x + [e] + y) + r)
    ensures MapOf(l + (x + y) + r) == MapOf(l + (x + [e] + y) + r) - {e.0}
  {
    assert l + (x + [e] + y) + r == (l + x) + [e] + (y + r);
    assert l + (x + y) + r == (l + x) + (y + r);
    MapOfMiddle(l + x, e, y + r);
  }

  lemma PopSlot(stack: seq<Option<Slot>>, stack': seq<Option<Slot>>, ctx: seq<Frame>, base: nat, i: int)
    requires |stack| == 64 && base <= |ctx| && |ctx| - base < i <= |ctx| - base + 64
    requires Stack(stack, ctx, base, i) && stack' == stack[Wrap(i) := None]
    ensures Stack(stack', ctx, base, i - 1)
  {
    var n := |ctx| - base;
    forall j | n < j <= n + 64
      ensures stack'[Wrap(j)] == if 64 <= j <= i - 1 then Some(SlotOf(ctx[..base + j - 64])) else None
    {
      if Wrap(j) == Wrap(i) {
        SameEntry(j, i, n);
      }
    }
  }

  lemma PushSlot(stack: seq<Option<Slot>>, stack': seq<Option<Slot>>, ctx: seq<Frame>, ctx': seq<Frame>, base: nat, i: int)
    requires |stack| == 64 && i == 64 + |ctx'| - base && |ctx'| == |ctx| + 1 && ctx <= ctx' && base <= |ctx|
    requires Stack(stack, ctx, base, i - 1) && stack' == stack[Wrap(i) := Some(SlotOf(ctx'))]
    ensures Stack(stack', ctx', base, i)
  {
    var n := |ctx'| - base;
    assert ctx'[..|ctx'|] == ctx';
    forall j | n < j <= n + 64
      ensures stack'[Wrap(j)] == if 64 <= j <= i then Some(SlotOf(ctx'[..base + j - 64])) else None
    {
      if j < i {
        if Wrap(j) == Wrap(i) {
          SameEntry(j, i, n);
        }
        assert stack[Wrap(j)] == stack'[Wrap(j)];
        if 64 <= j {
          assert ctx[..base + j - 64] == ctx'[..base + j - 64];
        }
      }
    }
  }
}
