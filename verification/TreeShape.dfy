// The balanced tree of system/vm/tree.c as a value: rotations, balancing and
// the backtracking over a path, and what they mean for the key/value map.
module TreeShape {
  import opened Basics

  type Ptr = nat      // address of a node; 0 is the null pointer
  type Value = nat

  // A tree with the addresses and the cached depths of its nodes.
  datatype Shape = Leaf | Node(p: Ptr, key: nat, val: Value, depth: nat, left: Shape, right: Shape)

  function Top(s: Shape): Ptr {
    if s.Leaf? then 0 else s.p
  }

  // bt_depth
  function Depth(s: Shape): nat {
    if s.Leaf? then 0 else s.depth
  }

  function Max(a: nat, b: nat): nat {
    if a > b then a else b
  }

  ghost function Ptrs(s: Shape): set<Ptr> {
    if s.Leaf? then {} else {s.p} + Ptrs(s.left) + Ptrs(s.right)
  }

  ghost function Size(s: Shape): nat {
    if s.Leaf? then 0 else 1 + Size(s.left) + Size(s.right)
  }

  /////////////// Rotations and balancing ///////////////

  // bt_calcdepth
  function Recalc(s: Shape): Shape
    requires s.Node?
  {
    s.(depth := Max(Depth(s.left), Depth(s.right)) + 1)
  }

  function RotLeft(h: Shape): (x: Shape)
    requires h.Node? && h.right.Node?
    ensures x.Node? && x.left.Node?
  {
    Recalc(h.right.(left := Recalc(h.(right := h.right.left))))
  }

  function RotRight(h: Shape): (x: Shape)
    requires h.Node? && h.left.Node?
    ensures x.Node? && x.right.Node?
  {
    Recalc(h.left.(right := Recalc(h.(left := h.left.right))))
  }

  // bt_balance.  It never rotates through a null child: a depth above 1 is the
  // depth of a node.
  function Balance(s: Shape): Shape {
    if s.Leaf? then s
    else
      var l, r := Depth(s.left), Depth(s.right);
      if l > r && l - r > 1 then RotRight(s)
      else if r > l && r - l > 1 then RotLeft(s)
      else Recalc(s)
  }

  /////////////// Paths ///////////////

  datatype Dir = L | R

  // A node above the subtree in focus: its fields, the side the focus is on,
  // and the child on the other side.
  datatype Frame = Frame(p: Ptr, key: nat, val: Value, depth: nat, dir: Dir, sib: Shape)

  function Fill(f: Frame, s: Shape): Shape {
    if f.dir == L then Node(f.p, f.key, f.val, f.depth, s, f.sib)
    else Node(f.p, f.key, f.val, f.depth, f.sib, s)
  }

  function FrameOf(s: Shape, dir: Dir): Frame
    requires s.Node?
  {
    Frame(s.p, s.key, s.val, s.depth, dir, if dir == L then s.right else s.left)
  }

  // The tree around a path, root first, with `s` at its end.
  function Plug(ctx: seq<Frame>, s: Shape): Shape {
    if ctx == [] then s else Plug(ctx[..|ctx| - 1], Fill(ctx[|ctx| - 1], s))
  }

  // The tree after `b` slots of the path have been balanced, from the end
  // towards the root.
  function Up(ctx: seq<Frame>, s: Shape, b: nat): Shape {
    if b == 0 then Plug(ctx, s)
    else if ctx == [] then Balance(s)
    else Up(ctx[..|ctx| - 1], Fill(ctx[|ctx| - 1], Balance(s)), b - 1)
  }

  lemma {:induction false} PlugConcat(a: seq<Frame>, b: seq<Frame>, s: Shape)
    ensures Plug(a + b, s) == Plug(a, Plug(b, s))
    decreases |b|
  {
    if b == [] {
      assert a + b == a;
    } else {
      assert (a + b)[..|a + b| - 1] == a + b[..|b| - 1];
      PlugConcat(a, b[..|b| - 1], Fill(b[|b| - 1], s));
    }
  }

  // Balancing no further up than the path `b` leaves the path above alone.
  lemma {:induction false} UpLocal(a: seq<Frame>, b: seq<Frame>, s: Shape, n: nat)
    requires n <= |b| + 1
    ensures Up(a + b, s, n) == Plug(a, Up(b, s, n))
    decreases |b|
  {
    if n == 0 {
      PlugConcat(a, b, s);
    } else if b == [] {
      assert a + b == a;
      if a != [] {
        assert Up(a, s, 1) == Up(a[..|a| - 1], Fill(a[|a| - 1], Balance(s)), 0);
      }
    } else {
      assert (a + b)[..|a + b| - 1] == a + b[..|b| - 1];
      UpLocal(a, b[..|b| - 1], Fill(b[|b| - 1], Balance(s)), n - 1);
    }
  }

  /////////////// In-order listing and map ///////////////

  type Entry = (nat, Value)

  ghost function InOrder(s: Shape): seq<Entry> {
    if s.Leaf? then [] else InOrder(s.left) + [(s.key, s.val)] + InOrder(s.right)
  }

  // What the path contributes before and after the subtree in focus.
  ghost function Before(ctx: seq<Frame>): seq<Entry> {
    if ctx == [] then []
    else
      var f, rest := ctx[|ctx| - 1], Before(ctx[..|ctx| - 1]);
      if f.dir == L then rest else rest + InOrder(f.sib) + [(f.key, f.val)]
  }

  ghost function After(ctx: seq<Frame>): seq<Entry> {
    if ctx == [] then []
    else
      var f, rest := ctx[|ctx| - 1], After(ctx[..|ctx| - 1]);
      if f.dir == L then [(f.key, f.val)] + InOrder(f.sib) + rest else rest
  }

  lemma {:induction false} PlugInOrder(ctx: seq<Frame>, s: Shape)
    ensures InOrder(Plug(ctx, s)) == Before(ctx) + InOrder(s) + After(ctx)
    decreases |ctx|
  {
    if ctx != [] {
      var rest, f := ctx[..|ctx| - 1], ctx[|ctx| - 1];
      PlugInOrder(rest, Fill(f, s));
      assert ctx == rest + [f];
      FillInOrder(rest, f, s, s);
    }
  }

  lemma {:induction false} PathConcat(a: seq<Frame>, b: seq<Frame>)
    ensures Before(a + b) == Before(a) + Before(b)
    ensures After(a + b) == After(b) + After(a)
    decreases |b|
  {
    if b == [] {
      assert a + b == a;
    } else {
      var c, f := b[..|b| - 1], b[|b| - 1];
      assert (a + b)[..|a + b| - 1] == a + c && (a + b)[|a + b| - 1] == f;
      PathConcat(a, c);
      var e := [(f.key, f.val)];
      if f.dir == L {
        Associate(e + InOrder(f.sib), After(c), After(a));
      } else {
        Associate(Before(a), Before(c), InOrder(f.sib));
        Associate(Before(a), Before(c) + InOrder(f.sib), e);
      }
    }
  }

  lemma Associate(a: seq<Entry>, b: seq<Entry>, c: seq<Entry>)
    ensures (a + b) + c == a + (b + c)
  {
  }

  lemma Regroup(a: seq<Entry>, b: seq<Entry>, c: seq<Entry>, d: seq<Entry>, e: seq<Entry>)
    ensures a + b + (c + d + e) == (a + b + c) + d + e
  {
  }

  lemma {:induction false} RotLeftKeepsOrder(h: Shape)
    requires h.Node? && h.right.Node?
    ensures InOrder(RotLeft(h)) == InOrder(h) && Ptrs(RotLeft(h)) == Ptrs(h)
    ensures InOrder(RotLeft(h).left) == InOrder(h.left) + [(h.key, h.val)] + InOrder(h.right.left)
    ensures Size(RotLeft(h).left) < Size(h)
  {
    var x := h.right;
    var h' := RotLeft(h).left;
    assert InOrder(h') == InOrder(h.left) + [(h.key, h.val)] + InOrder(x.left);
    assert InOrder(x) == InOrder(x.left) + [(x.key, x.val)] + InOrder(x.right);
    Regroup(InOrder(h.left), [(h.key, h.val)], InOrder(x.left), [(x.key, x.val)], InOrder(x.right));
    assert Ptrs(x) == {x.p} + Ptrs(x.left) + Ptrs(x.right);
    assert Ptrs(h') == {h.p} + Ptrs(h.left) + Ptrs(x.left);
    assert Size(x) == 1 + Size(x.left) + Size(x.right);
  }

  lemma {:induction false} RotRightKeepsOrder(h: Shape)
    requires h.Node? && h.left.Node?
    ensures InOrder(RotRight(h)) == InOrder(h) && Ptrs(RotRight(h)) == Ptrs(h)
    ensures InOrder(RotRight(h).right) == InOrder(h.left.right) + [(h.key, h.val)] + InOrder(h.right)
    ensures Size(RotRight(h).right) < Size(h)
  {
    var x := h.left;
    var h' := RotRight(h).right;
    assert InOrder(h') == InOrder(x.right) + [(h.key, h.val)] + InOrder(h.right);
    assert InOrder(x) == InOrder(x.left) + [(x.key, x.val)] + InOrder(x.right);
    Regroup(InOrder(x.left), [(x.key, x.val)], InOrder(x.right), [(h.key, h.val)], InOrder(h.right));
    assert Ptrs(x) == {x.p} + Ptrs(x.left) + Ptrs(x.right);
    assert Ptrs(h') == {h.p} + Ptrs(x.right) + Ptrs(h.right);
    assert Size(x) == 1 + Size(x.left) + Size(x.right);
  }

  lemma BalanceKeepsOrder(s: Shape)
    ensures InOrder(Balance(s)) == InOrder(s) && Ptrs(Balance(s)) == Ptrs(s)
  {
    if s.Node? && s.right.Node? {
      RotLeftKeepsOrder(s);
    }
    if s.Node? && s.left.Node? {
      RotRightKeepsOrder(s);
    }
  }

  // Search order survives any amount of balancing on the way up.
  lemma {:induction false} UpKeepsOrder(ctx: seq<Frame>, s: Shape, b: nat)
    ensures InOrder(Up(ctx, s, b)) == Before(ctx) + InOrder(s) + After(ctx)
    decreases |ctx|
  {
    if b == 0 {
      PlugInOrder(ctx, s);
    } else {
      BalanceKeepsOrder(s);
      if ctx != [] {
        var rest, f := ctx[..|ctx| - 1], ctx[|ctx| - 1];
        UpKeepsOrder(rest, Fill(f, Balance(s)), b - 1);
        assert ctx == rest + [f];
        FillInOrder(rest, f, s, Balance(s));
      }
    }
  }

  lemma {:induction false} FillInOrder(rest: seq<Frame>, f: Frame, s: Shape, s': Shape)
    requires InOrder(s) == InOrder(s')
    ensures Before(rest) + InOrder(Fill(f, s')) + After(rest) == Before(rest + [f]) + InOrder(s) + After(rest + [f])
  {
    var ctx := rest + [f];
    assert ctx[..|ctx| - 1] == rest;
    if f.dir == L {
      assert InOrder(Fill(f, s')) == InOrder(s) + [(f.key, f.val)] + InOrder(f.sib);
    } else {
      assert InOrder(Fill(f, s')) == InOrder(f.sib) + [(f.key, f.val)] + InOrder(s);
    }
  }

  ghost predicate Ordered(es: seq<Entry>) {
    forall i, j | 0 <= i < j < |es| :: es[i].0 < es[j].0
  }

  ghost function MapOf(es: seq<Entry>): map<nat, Value> {
    if es == [] then map[] else MapOf(es[..|es| - 1])[es[|es| - 1].0 := es[|es| - 1].1]
  }

  // The map a search tree stands for.
  ghost function Contents(s: Shape): map<nat, Value> {
    MapOf(InOrder(s))
  }

  lemma {:induction false} MapOfAt(es: seq<Entry>, i: nat)
    requires Ordered(es) && i < |es|
    ensures es[i].0 in MapOf(es) && MapOf(es)[es[i].0] == es[i].1
  {
    if i < |es| - 1 {
      MapOfAt(es[..|es| - 1], i);
    }
  }

  lemma {:induction false} MapOfOnly(es: seq<Entry>, k: nat) returns (i: nat)
    requires k in MapOf(es)
    ensures i < |es| && es[i].0 == k
  {
    if es[|es| - 1].0 == k {
      i := |es| - 1;
    } else {
      i := MapOfOnly(es[..|es| - 1], k);
    }
  }

  // One entry in the middle of an ordered listing is one key of the map.
  lemma MapOfMiddle(a: seq<Entry>, e: Entry, b: seq<Entry>)
    requires Ordered(a + [e] + b)
    ensures Ordered(a + b) && e.0 !in MapOf(a + b)
    ensures MapOf(a + [e] + b) == MapOf(a + b)[e.0 := e.1]
  {
    var whole, rest := a + [e] + b, a + b;
    assert forall i | 0 <= i < |rest| :: rest[i] == if i < |a| then whole[i] else whole[i + 1];
    assert whole[|a|] == e;
    forall i, j | 0 <= i < j < |rest| ensures rest[i].0 < rest[j].0 {
      var i', j' := if i < |a| then i else i + 1, if j < |a| then j else j + 1;
      assert rest[i] == whole[i'] && rest[j] == whole[j'];
    }
    forall i | 0 <= i < |rest| ensures rest[i].0 != e.0 {
      assert i < |a| ==> whole[i].0 < whole[|a|].0;
      assert i >= |a| ==> whole[|a|].0 < whole[i + 1].0;
    }
    assert e.0 !in MapOf(rest) by {
      if e.0 in MapOf(rest) {
        var i := MapOfOnly(rest, e.0);
        assert false;
      }
    }
    var m, m' := MapOf(whole), MapOf(rest)[e.0 := e.1];
    forall k | k in m ensures k in m' && m'[k] == m[k] {
      var i := MapOfOnly(whole, k);
      MapOfAt(whole, i);
      if i < |a| {
        MapOfAt(rest, i);
      } else if i > |a| {
        MapOfAt(rest, i - 1);
        assert rest[i - 1] == whole[i];
      }
    }
    forall k | k in m' ensures k in m {
      if k == e.0 {
        MapOfAt(whole, |a|);
      } else {
        var i := MapOfOnly(rest, k);
        var j := if i < |a| then i else i + 1;
        assert rest[i] == whole[j];
        MapOfAt(whole, j);
      }
    }
  }

  // Putting an entry between smaller and greater ones keeps the listing ordered.
  lemma OrderedMiddle(a: seq<Entry>, e: Entry, b: seq<Entry>)
    requires Ordered(a + b)
    requires forall x | x in a :: x.0 < e.0
    requires forall x | x in b :: e.0 < x.0
    ensures Ordered(a + [e] + b)
  {
    var whole, rest := a + [e] + b, a + b;
    forall i, j | 0 <= i < j < |whole| ensures whole[i].0 < whole[j].0 {
      if i != |a| && j != |a| {
        var i', j' := if i < |a| then i else i - 1, if j < |a| then j else j - 1;
        assert whole[i] == rest[i'] && whole[j] == rest[j'];
      } else if i == |a| {
        assert whole[j] in b;
      } else {
        assert whole[i] in a;
      }
    }
  }

  /////////////// Exact depths ///////////////

  // Every cached depth is the height of its subtree.
  ghost predicate Exact(s: Shape) {
    s.Node? ==> s.depth == Max(Depth(s.left), Depth(s.right)) + 1 && Exact(s.left) && Exact(s.right)
  }

  ghost predicate ExactBelow(s: Shape) {
    s.Node? ==> Exact(s.left) && Exact(s.right)
  }

  ghost predicate ExactAside(ctx: seq<Frame>) {
    forall i | 0 <= i < |ctx| :: Exact(ctx[i].sib)
  }

  function TrueDepth(s: Shape): nat {
    if s.Leaf? then 0 else Max(Depth(s.left), Depth(s.right)) + 1
  }

  // bt_balance makes the depth exact and never raises it.
  lemma BalanceExact(s: Shape)
    requires ExactBelow(s)
    ensures Exact(Balance(s)) && Depth(Balance(s)) <= TrueDepth(s)
  {
  }

  lemma {:induction false} UpExact(ctx: seq<Frame>, s: Shape, b: nat)
    requires ExactAside(ctx) && ExactBelow(s) && b >= |ctx| + 1
    ensures Exact(Up(ctx, s, b))
    decreases |ctx|
  {
    hide Balance;
    BalanceExact(s);
    if ctx != [] {
      UpExact(ctx[..|ctx| - 1], Fill(ctx[|ctx| - 1], Balance(s)), b - 1);
    }
  }

  lemma {:induction false} PlugExact(ctx: seq<Frame>, s: Shape)
    requires Exact(Plug(ctx, s))
    ensures ExactAside(ctx) && Exact(s)
    decreases |ctx|
  {
    if ctx != [] {
      PlugExact(ctx[..|ctx| - 1], Fill(ctx[|ctx| - 1], s));
    }
  }

  // If the subtree at the end of the path grows by at most `d`, so does the tree.
  lemma {:induction false} UpGrows(ctx: seq<Frame>, s: Shape, s': Shape, b: nat, d: nat)
    requires Exact(Plug(ctx, s)) && ExactBelow(s') && b >= |ctx| + 1
    requires TrueDepth(s') <= Depth(s) + d
    ensures Depth(Up(ctx, s', b)) <= Depth(Plug(ctx, s)) + d
    decreases |ctx|
  {
    hide Balance;
    BalanceExact(s');
    if ctx != [] {
      var rest, f := ctx[..|ctx| - 1], ctx[|ctx| - 1];
      PlugExact(rest, Fill(f, s));
      UpGrows(rest, Fill(f, s), Fill(f, Balance(s')), b - 1, d);
    }
  }

  /////////////// Removal by rotation ///////////////

  // The path bt_remove makes by rotating the node down until it lacks a child,
  // and what takes its place there.
  ghost function Sink(s: Shape): (seq<Frame>, Shape)
    requires s.Node?
    decreases Size(s)
  {
    if s.left.Leaf? then ([], s.right)
    else if s.right.Leaf? then ([], s.left)
    else if Depth(s.left) <= Depth(s.right) then
      var x := RotLeft(s);
      RotLeftKeepsOrder(s);
      var (c, rest) := Sink(x.left);
      ([FrameOf(x, L)] + c, rest)
    else
      var x := RotRight(s);
      RotRightKeepsOrder(s);
      var (c, rest) := Sink(x.right);
      ([FrameOf(x, R)] + c, rest)
  }

  // The subtree bt_remove leaves in its slot: at most 64 slots are balanced.
  ghost function Removed(s: Shape): Shape
    requires s.Node?
  {
    var (c, rest) := Sink(s);
    Up(c, rest, if |c| + 1 <= 64 then |c| + 1 else 64)
  }

  lemma {:induction false} SinkInOrder(s: Shape)
    requires s.Node?
    ensures var (c, rest) := Sink(s);
      Before(c) + InOrder(rest) + After(c) == InOrder(s.left) + InOrder(s.right)
    decreases Size(s)
  {
    if s.left.Node? && s.right.Node? {
      if Depth(s.left) <= Depth(s.right) {
        var x := RotLeft(s);
        RotLeftKeepsOrder(s);
        SinkInOrder(x.left);
        SinkLeft(s, Sink(x.left).0, Sink(x.left).1);
      } else {
        var x := RotRight(s);
        RotRightKeepsOrder(s);
        SinkInOrder(x.right);
        SinkRight(s, Sink(x.right).0, Sink(x.right).1);
      }
    }
  }

  lemma SinkLeft(s: Shape, c: seq<Frame>, rest: Shape)
    requires s.Node? && s.right.Node?
    requires Before(c) + InOrder(rest) + After(c) == InOrder(s.left) + InOrder(s.right.left)
    ensures var f := FrameOf(RotLeft(s), L);
      Before([f] + c) + InOrder(rest) + After([f] + c) == InOrder(s.left) + InOrder(s.right)
  {
    var x, f := s.right, FrameOf(RotLeft(s), L);
    PathConcat([f], c);
    SinglePath(f);
    JoinBehind(Before(c), InOrder(rest), After(c), InOrder(s.left), InOrder(x.left), [(x.key, x.val)], InOrder(x.right));
  }

  lemma SinkRight(s: Shape, c: seq<Frame>, rest: Shape)
    requires s.Node? && s.left.Node?
    requires Before(c) + InOrder(rest) + After(c) == InOrder(s.left.right) + InOrder(s.right)
    ensures var f := FrameOf(RotRight(s), R);
      Before([f] + c) + InOrder(rest) + After([f] + c) == InOrder(s.left) + InOrder(s.right)
  {
    var x, f := s.left, FrameOf(RotRight(s), R);
    PathConcat([f], c);
    SinglePath(f);
    JoinAhead(InOrder(x.left), [(x.key, x.val)], Before(c), InOrder(rest), After(c), InOrder(x.right), InOrder(s.right));
  }

  lemma JoinBehind(b: seq<Entry>, r: seq<Entry>, a: seq<Entry>, l: seq<Entry>, m: seq<Entry>, e: seq<Entry>, t: seq<Entry>)
    requires b + r + a == l + m
    ensures [] + b + r + (a + (e + t)) == l + (m + e + t)
  {
    assert [] + b + r + (a + (e + t)) == (b + r + a) + (e + t);
    assert l + (m + e + t) == (l + m) + (e + t);
  }

  lemma JoinAhead(h: seq<Entry>, e: seq<Entry>, b: seq<Entry>, r: seq<Entry>, a: seq<Entry>, m: seq<Entry>, l: seq<Entry>)
    requires b + r + a == m + l
    ensures (h + e + b) + r + (a + []) == (h + e + m) + l
  {
    assert (h + e + b) + r + (a + []) == (h + e) + (b + r + a);
    assert (h + e + m) + l == (h + e) + (m + l);
  }

  lemma SinglePath(f: Frame)
    ensures Before([f]) == if f.dir == L then [] else InOrder(f.sib) + [(f.key, f.val)]
    ensures After([f]) == if f.dir == L then [(f.key, f.val)] + InOrder(f.sib) else []
  {
    assert [f][..0] == [];
    assert Before([]) == [] && After([]) == [];
  }

  // Removal deletes the node's key and keeps everything else.
  lemma RemovedInOrder(s: Shape)
    requires s.Node?
    ensures InOrder(Removed(s)) == InOrder(s.left) + InOrder(s.right)
  {
    var (c, rest) := Sink(s);
    SinkInOrder(s);
    UpKeepsOrder(c, rest, if |c| + 1 <= 64 then |c| + 1 else 64);
  }

  // With exact depths the path is no longer than the two depths together, and
  // everything beside it is exact.
  lemma {:induction false} SinkExact(s: Shape)
    requires s.Node? && ExactBelow(s)
    ensures var (c, rest) := Sink(s);
      && ExactAside(c) && Exact(rest)
      && |c| + 1 <= Max(1, Depth(s.left) + Depth(s.right))
    decreases Size(s)
  {
    if s.left.Node? && s.right.Node? {
      if Depth(s.left) <= Depth(s.right) {
        RotLeftKeepsOrder(s);
        SinkExact(RotLeft(s).left);
      } else {
        RotRightKeepsOrder(s);
        SinkExact(RotRight(s).right);
      }
    }
  }

  // Removal restores exact depths in its slot, and the path always fits the slot
  // stack when the two depths together are at most 64.
  lemma {:induction false} RemovedExact(s: Shape)
    requires s.Node? && ExactBelow(s) && (|Sink(s).0| + 1 <= 64 || Depth(s.left) + Depth(s.right) <= 64)
    ensures Exact(Removed(s))
  {
    var (c, rest) := Sink(s);
    SinkExact(s);
    UpExact(c, rest, |c| + 1);
  }

  /////////////// Depths above the part that is balanced ///////////////

  lemma {:induction false} SameDepthExact(ctx: seq<Frame>, s: Shape, s': Shape)
    requires Exact(Plug(ctx, s)) && Exact(s') && Depth(s') == Depth(s)
    ensures Exact(Plug(ctx, s'))
    decreases |ctx|
  {
    if ctx != [] {
      var rest, f := ctx[..|ctx| - 1], ctx[|ctx| - 1];
      PlugExact(rest, Fill(f, s));
      SameDepthExact(rest, Fill(f, s), Fill(f, s'));
    }
  }

  // Neither bt_remove nor a path of more than 64 slots refreshes the nodes above
  // the part they balance.  Those depths are right afterwards exactly when the
  // parent of the balanced part keeps its height.
  lemma ExactAboveIff(ctx: seq<Frame>, s: Shape, s': Shape)
    requires Exact(Plug(ctx, s)) && Exact(s') && ctx != []
    ensures var sib := Depth(ctx[|ctx| - 1].sib);
      Exact(Plug(ctx, s')) <==> Max(Depth(s'), sib) == Max(Depth(s), sib)
  {
    var rest, f := ctx[..|ctx| - 1], ctx[|ctx| - 1];
    PlugExact(rest, Fill(f, s));
    if Exact(Plug(ctx, s')) {
      PlugExact(rest, Fill(f, s'));
    }
    if Max(Depth(s'), Depth(f.sib)) == Max(Depth(s), Depth(f.sib)) {
      SameDepthExact(rest, Fill(f, s), Fill(f, s'));
    }
  }

  /////////////// Depths above a long insertion path ///////////////

  // A path of more than 64 slots: what is above its last 64 slots, and the rest.
  ghost function Above(ctx: seq<Frame>): (a: seq<Frame>)
    requires |ctx| >= 64
    ensures |a| == |ctx| - 63
  {
    ctx[..|ctx| - 63]
  }

  ghost function Lowest63(ctx: seq<Frame>): (b: seq<Frame>)
    requires |ctx| >= 64
    ensures |b| == 63 && Above(ctx) + b == ctx
  {
    ctx[|ctx| - 63..]
  }

  // The lowest node that is not refreshed, when `focus` at the end of a long path
  // becomes `s`: whether it keeps its height, and whether its other child is deeper
  // than the part that is balanced, before the change.
  ghost predicate KeepsHeight(ctx: seq<Frame>, focus: Shape, s: Shape)
    requires |ctx| >= 64
  {
    var sib := Depth(ctx[|ctx| - 64].sib);
    Max(Depth(Up(Lowest63(ctx), s, 64)), sib) == Max(Depth(Plug(Lowest63(ctx), focus)), sib)
  }

  ghost predicate DeepBeside(ctx: seq<Frame>, focus: Shape)
    requires |ctx| >= 64
  {
    Depth(ctx[|ctx| - 64].sib) > Depth(Plug(Lowest63(ctx), focus))
  }

  // Growing or changing the end of a long path leaves exact depths exactly when that
  // node keeps its height, hence whenever its other child is deeper.
  lemma {:induction false} LongPathExactIff(ctx: seq<Frame>, focus: Shape, s: Shape)
    requires |ctx| >= 64 && Exact(Plug(ctx, focus)) && ExactBelow(s) && TrueDepth(s) <= Depth(focus) + 1
    ensures Depth(Up(Lowest63(ctx), s, 64)) <= Depth(Plug(Lowest63(ctx), focus)) + 1
    ensures Exact(Up(ctx, s, 64)) <==> KeepsHeight(ctx, focus, s)
    ensures DeepBeside(ctx, focus) ==> Exact(Up(ctx, s, 64))
  {
    hide Up;
    var a, b := Above(ctx), Lowest63(ctx);
    PlugConcat(a, b, focus);
    UpLocal(a, b, s, 64);
    PlugExact(ctx, focus);
    PlugExact(a, Plug(b, focus));
    UpExact(b, s, 64);
    UpGrows(b, focus, s, 64, 1);
    ExactAboveIff(a, Plug(b, focus), Up(b, s, 64));
  }

  // A path on which every node has two equally deep children, with a subtree of
  // depth `e` at its end.
  ghost predicate Ladder(ctx: seq<Frame>, e: nat) {
    forall i | 0 <= i < |ctx| ::
      Exact(ctx[i].sib) && Depth(ctx[i].sib) == e + |ctx| - 1 - i && ctx[i].depth == e + |ctx| - i
  }

  lemma {:induction false} LadderExact(ctx: seq<Frame>, e: nat, s: Shape)
    requires Ladder(ctx, e) && Exact(s) && Depth(s) == e
    ensures Exact(Plug(ctx, s)) && Depth(Plug(ctx, s)) == e + |ctx|
    decreases |ctx|
  {
    if ctx != [] {
      LadderExact(ctx[..|ctx| - 1], e + 1, Fill(ctx[|ctx| - 1], s));
    }
  }

  // Nothing on a ladder is rotated: every level gets one deeper.
  lemma {:induction false} LadderGrows(ctx: seq<Frame>, e: nat, s: Shape)
    requires Ladder(ctx, e) && Depth(Balance(s)) == e + 1
    ensures Depth(Up(ctx, s, |ctx| + 1)) == e + 1 + |ctx|
    decreases |ctx|
  {
    if ctx != [] {
      var f := ctx[|ctx| - 1];
      var s1 := Fill(f, Balance(s));
      assert Depth(Balance(s1)) == e + 2;
      hide Balance;
      LadderGrows(ctx[..|ctx| - 1], e + 1, s1);
    }
  }

  // A chain of `n` nodes with the keys from `k` on.
  ghost function Chain(k: nat, n: nat): (s: Shape)
    ensures Exact(s) && Depth(s) == n
    decreases n
  {
    if n == 0 then Leaf else Node(k + 1, k, 0, n, Leaf, Chain(k + 1, n - 1))
  }

  // A ladder of `n` nodes with the keys from `k` on, going right.
  ghost function Rungs(k: nat, n: nat): (ctx: seq<Frame>)
    ensures |ctx| == n && Ladder(ctx, 0)
    decreases n
  {
    if n == 0 then []
    else
      var f := Frame(k + n, k + n - 1, 0, n, R, Chain(k, n - 1));
      [f] + Rungs(k + n, n - 1)
  }

  ghost predicate KeysFrom(es: seq<Entry>, k: nat) {
    forall i | 0 <= i < |es| :: es[i].0 == k + i
  }

  lemma {:induction false} ChainKeys(k: nat, n: nat)
    ensures |InOrder(Chain(k, n))| == n && KeysFrom(InOrder(Chain(k, n)), k)
    decreases n
  {
    if n > 0 {
      ChainKeys(k + 1, n - 1);
    }
  }

  lemma {:induction false} RungsKeys(k: nat, n: nat)
    ensures KeysFrom(Before(Rungs(k, n)), k) && After(Rungs(k, n)) == []
    decreases n
  {
    hide Before;
    hide After;
    if n > 0 {
      RungsKeys(k + n, n - 1);
      ChainKeys(k, n - 1);
      RungKeys(Frame(k + n, k + n - 1, 0, n, R, Chain(k, n - 1)), Rungs(k + n, n - 1), k);
    } else {
      EmptyPath();
    }
  }

  lemma EmptyPath()
    ensures Before([]) == [] && After([]) == []
  {
  }

  lemma {:induction false} RungKeys(f: Frame, c: seq<Frame>, k: nat)
    requires f.dir == R && KeysFrom(InOrder(f.sib), k) && f.key == k + |InOrder(f.sib)|
    requires KeysFrom(Before(c), f.key + 1) && After(c) == []
    ensures KeysFrom(Before([f] + c), k) && After([f] + c) == []
  {
    SinglePath(f);
    PathConcat([f], c);
    hide InOrder;
    hide Before;
    hide After;
    KeysJoin(InOrder(f.sib), (f.key, f.val), Before(c), k);
  }

  lemma KeysJoin(a: seq<Entry>, e: Entry, b: seq<Entry>, k: nat)
    requires KeysFrom(a, k) && e.0 == k + |a| && KeysFrom(b, k + |a| + 1)
    ensures KeysFrom(a + [e] + b, k)
  {
  }

  // An insertion that leaves a stale depth, for every depth from 64 on: an exact
  // search tree and a new greatest key.
  lemma {:induction false} InsertionCanLeaveStaleDepth(n: nat, s: Shape)
    requires n >= 64 && s.Node? && s.left.Leaf? && s.right.Leaf?
    requires s.key >= |Before(Rungs(0, n))|
    ensures var ctx := Rungs(0, n);
      && Exact(Plug(ctx, Leaf)) && Ordered(InOrder(Plug(ctx, Leaf)))
      && (forall e | e in InOrder(Plug(ctx, Leaf)) :: e.0 < s.key)
      && !Exact(Up(ctx, s, 64))
  {
    var ctx := Rungs(0, n);
    LadderExact(ctx, 0, Leaf);
    RungsKeys(0, n);
    PlugInOrder(ctx, Leaf);
    assert InOrder(Plug(ctx, Leaf)) == Before(ctx);
    var b := Lowest63(ctx);
    assert Ladder(b, 0);
    assert Depth(Balance(s)) == 1;
    LadderExact(b, 0, Leaf);
    LadderGrows(b, 0, s);
    LongPathExactIff(ctx, Leaf, s);
  }

  /////////////// Depths above and after a removal ///////////////

  // Balancing a whole path balances the part below its first node, then that.
  lemma {:induction false} UpFirst(f: Frame, c: seq<Frame>, s: Shape)
    ensures Up([f] + c, s, |c| + 2) == Balance(Fill(f, Up(c, s, |c| + 1)))
    decreases |c|
  {
    hide Balance;
    var ctx := [f] + c;
    if c == [] {
      assert ctx[..0] == [];
      assert Up(c, s, 1) == Balance(s);
      assert Up([], Fill(f, Balance(s)), 1) == Balance(Fill(f, Balance(s)));
    } else {
      assert ctx[..|ctx| - 1] == [f] + c[..|c| - 1];
      UpFirst(f, c[..|c| - 1], Fill(c[|c| - 1], Balance(s)));
    }
  }

  ghost predicate PathFits(s: Shape)
    requires s.Node?
  {
    |Sink(s).0| + 1 <= 64
  }

  // Removal leaves no more than the two depths together in its slot.
  lemma {:induction false} RemovedBound(s: Shape)
    requires s.Node? && ExactBelow(s) && PathFits(s)
    ensures Depth(Removed(s)) <= Depth(s.left) + Depth(s.right)
    decreases Size(s)
  {
    if s.left.Leaf? || s.right.Leaf? {
      BalanceExact(Sink(s).1);
    } else if Depth(s.left) <= Depth(s.right) {
      var x := RotLeft(s);
      RotLeftKeepsOrder(s);
      RemovedBound(x.left);
      RemovedAbove(FrameOf(x, L), x.left, s);
    } else {
      var x := RotRight(s);
      RotRightKeepsOrder(s);
      RemovedBound(x.right);
      RemovedAbove(FrameOf(x, R), x.right, s);
    }
  }

  lemma {:induction false} RemovedAbove(f: Frame, below: Shape, s: Shape)
    requires s.Node? && below.Node? && PathFits(s)
    requires Sink(s) == ([f] + Sink(below).0, Sink(below).1)
    ensures PathFits(below) && Removed(s) == Balance(Fill(f, Removed(below)))
    ensures ExactBelow(below) && Exact(f.sib) ==> Depth(Removed(s)) <= Max(Depth(Removed(below)), Depth(f.sib)) + 1
  {
    var (c, rest) := Sink(below);
    UpFirst(f, c, rest);
    if ExactBelow(below) && Exact(f.sib) {
      RemovedExact(below);
      BalanceExact(Fill(f, Removed(below)));
    }
  }

  // Removal at the root's slot leaves exact depths.  Elsewhere it does exactly when
  // the node above keeps its height; for a node with at most one child, exactly when
  // the other child of the node above is at least as deep as the node; in any case
  // when that child is as deep as the removed node's children together.
  lemma {:induction false} RemovalExactIff(ctx: seq<Frame>, s: Shape)
    requires s.Node? && Exact(Plug(ctx, s)) && PathFits(s)
    ensures ctx == [] ==> Exact(Plug(ctx, Removed(s)))
    ensures ctx != [] ==>
      var sib := Depth(ctx[|ctx| - 1].sib);
      && (Exact(Plug(ctx, Removed(s))) <==> Max(Depth(Removed(s)), sib) == Max(Depth(s), sib))
      && (s.left.Leaf? || s.right.Leaf? ==> (Exact(Plug(ctx, Removed(s))) <==> sib >= Depth(s)))
      && (sib >= Depth(s) && sib >= Depth(s.left) + Depth(s.right) ==> Exact(Plug(ctx, Removed(s))))
  {
    hide Sink;
    hide Removed;
    PlugExact(ctx, s);
    RemovedExact(s);
    RemovedBound(s);
    if ctx != [] {
      ExactAboveIff(ctx, s, Removed(s));
    }
  }

  ghost function Single(k: nat): Shape {
    Node(k, k, 0, 1, Leaf, Leaf)
  }

  // A node with two subtrees and the depth they give it.
  ghost function Join(k: nat, l: Shape, r: Shape): Shape {
    Node(k, k, 0, Max(Depth(l), Depth(r)) + 1, l, r)
  }

  // One level of the removal's way down, to the left or to the right.
  lemma {:induction false} RemovedLevel(k: nat, l: Shape, r: Shape)
    requires l.Node? && r.Node? && PathFits(Join(k, l, r))
    ensures Depth(l) <= Depth(r) && r == Join(r.key, r.left, r.right) ==>
      PathFits(Join(k, l, r.left)) &&
      Removed(Join(k, l, r)) == Balance(Join(r.key, Removed(Join(k, l, r.left)), r.right))
    ensures Depth(l) > Depth(r) && l == Join(l.key, l.left, l.right) ==>
      PathFits(Join(k, l.right, r)) &&
      Removed(Join(k, l, r)) == Balance(Join(l.key, l.left, Removed(Join(k, l.right, r))))
  {
    hide Removed;
    var s := Join(k, l, r);
    if Depth(l) <= Depth(r) && r == Join(r.key, r.left, r.right) {
      var f := FrameOf(RotLeft(s), L);
      RemovedAbove(f, Join(k, l, r.left), s);
      BalanceRecalc(Fill(f, Removed(Join(k, l, r.left))));
    } else if Depth(l) > Depth(r) && l == Join(l.key, l.left, l.right) {
      var f := FrameOf(RotRight(s), R);
      RemovedAbove(f, Join(k, l.right, r), s);
      BalanceRecalc(Fill(f, Removed(Join(k, l.right, r))));
    }
  }

  lemma BalanceRecalc(s: Shape)
    requires s.Node?
    ensures Balance(s) == Balance(Recalc(s))
  {
  }

  // A removal can deepen its slot: the root of a perfect tree of 7 nodes, with any
  // keys.
  lemma {:induction false} RemovalCanDeepen(k: seq<nat>)
    requires |k| == 7
    ensures var s := Join(k[3], Join(k[1], Single(k[0]), Single(k[2])), Join(k[5], Single(k[4]), Single(k[6])));
      Exact(s) && Depth(s) == 3 && PathFits(s) && Depth(Removed(s)) == 4
  {
    hide Removed;
    hide Sink;
    // The node goes down left, right, left, and is cut out there.
    var l := Join(k[1], Single(k[0]), Single(k[2]));
    var r := Join(k[5], Single(k[4]), Single(k[6]));
    SinkExact(Join(k[3], l, r));
    RemovedLevel(k[3], l, r);
    RemovedLevel(k[3], l, Single(k[4]));
    RemovedLevel(k[3], Single(k[2]), Single(k[4]));
    RemovedEnd(Join(k[3], Single(k[2]), Leaf));
    hide PathFits;
    hide Exact;
    var x := Join(k[4], Single(k[2]), Leaf);
    assert Removed(Join(k[3], Single(k[2]), Single(k[4]))) == x;
    assert Removed(Join(k[3], l, Single(k[4]))) == Join(k[1], Single(k[0]), x);
    assert Depth(Balance(Join(k[5], Join(k[1], Single(k[0]), x), Single(k[6])))) == 4;
  }

  // Cutting out a node without a right child.
  lemma RemovedEnd(s: Shape)
    requires s.Node? && s.left.Node? && s.right.Leaf?
    ensures Removed(s) == Balance(s.left)
  {
    assert Sink(s) == ([], s.left);
  }

  /////////////// What balancing does ///////////////

  // The children's depths differ by at most one, at this node and everywhere.
  ghost predicate Even(s: Shape) {
    s.Node? ==> Depth(s.left) <= Depth(s.right) + 1 && Depth(s.right) <= Depth(s.left) + 1
  }

  ghost predicate Level(s: Shape) {
    s.Node? ==> Even(s) && Level(s.left) && Level(s.right)
  }

  ghost function Side(s: Shape, dir: Dir): Shape
    requires s.Node?
  {
    if dir == L then s.left else s.right
  }

  function Other(dir: Dir): Dir {
    if dir == L then R else L
  }

  // bt_balance brings the deeper child to the top exactly when the depths differ by
  // more than one.
  lemma BalanceTop(s: Shape, dir: Dir)
    requires s.Node?
    ensures var a, b := Side(s, dir), Side(s, Other(dir));
      && (Depth(a) > Depth(b) + 1 ==> Top(Balance(s)) == Top(a) && Balance(s).Node? && Top(Side(Balance(s), Other(dir))) == s.p)
      && (Even(s) ==> Balance(s) == s.(depth := TrueDepth(s)))
  {
  }

  // That lowers the depth by one exactly when the outer grandchild is deeper than
  // the inner one, and otherwise leaves it alone.
  lemma BalanceDepthIff(s: Shape, dir: Dir)
    requires s.Node? && ExactBelow(s) && Depth(Side(s, dir)) > Depth(Side(s, Other(dir))) + 1
    ensures var a := Side(s, dir);
      && a.Node?
      && (Depth(Balance(s)) == TrueDepth(s) - 1 <==> Depth(Side(a, dir)) > Depth(Side(a, Other(dir))))
      && (Depth(Balance(s)) == TrueDepth(s) <==> Depth(Side(a, dir)) <= Depth(Side(a, Other(dir))))
  {
  }

  // Of a node whose level children differ by two, balancing makes a level tree
  // exactly when the outer grandchild is no less deep than the inner one.
  lemma {:induction false} BalanceLevelIff(s: Shape, dir: Dir)
    requires s.Node? && ExactBelow(s) && Level(s.left) && Level(s.right)
    requires Depth(Side(s, dir)) == Depth(Side(s, Other(dir))) + 2
    ensures var a := Side(s, dir);
      a.Node? && (Level(Balance(s)) <==> Depth(Side(a, dir)) >= Depth(Side(a, Other(dir))))
  {
    if dir == L {
      assert Balance(s) == RotRight(s);
    } else {
      assert Balance(s) == RotLeft(s);
    }
  }

  // A level tree is no deeper than twice the logarithm of its size.
  function Pow2(n: nat): nat {
    if n == 0 then 1 else 2 * Pow2(n - 1)
  }

  lemma {:induction false} LevelSize(s: Shape)
    requires Exact(s) && Level(s)
    ensures Size(s) + 1 >= Pow2(Depth(s) / 2)
  {
    if s.Node? {
      LevelSize(s.left);
      LevelSize(s.right);
      PowMonotone((Depth(s) - 1) / 2, Depth(s) / 2);
      var d := Depth(s);
      if d >= 2 {
        assert Depth(s.left) >= d - 2 && Depth(s.right) >= d - 2;
        PowMonotone((d - 2) / 2, Depth(s.left) / 2);
        PowMonotone((d - 2) / 2, Depth(s.right) / 2);
        assert d / 2 == (d - 2) / 2 + 1;
      }
    }
  }

  lemma {:induction false} PowMonotone(m: nat, n: nat)
    requires m <= n
    ensures 1 <= Pow2(m) <= Pow2(n)
  {
    if m < n {
      PowMonotone(m, n - 1);
    } else if m > 0 {
      PowMonotone(m - 1, n - 1);
    }
  }

  lemma {:induction false} PowSum(m: nat, n: nat)
    ensures Pow2(m + n) == Pow2(m) * Pow2(n)
  {
    if m > 0 {
      PowSum(m - 1, n);
    }
  }

  // The path along one edge of the tree.
  ghost function Edge(s: Shape, dir: Dir): seq<Frame> {
    if s.Leaf? then [] else [FrameOf(s, dir)] + Edge(Side(s, dir), dir)
  }

  lemma {:induction false} EdgeLength(s: Shape, dir: Dir)
    requires Exact(s)
    ensures |Edge(s, dir)| <= Depth(s)
  {
    if s.Node? {
      EdgeLength(Side(s, dir), dir);
    }
  }

  // Inserting a new least or greatest key into a level tree gives a level tree, no
  // more than one deeper.
  lemma {:induction false} EdgeInsertLevel(s: Shape, dir: Dir, x: Shape)
    requires Exact(s) && Level(s) && x.Node? && x.left.Leaf? && x.right.Leaf?
    ensures var s' := Up(Edge(s, dir), x, |Edge(s, dir)| + 1);
      && Exact(s') && Level(s') && Depth(s) <= Depth(s') <= Depth(s) + 1
      && s'.Node? && (s.Node? && Depth(s') > Depth(s) ==> Depth(Side(s', dir)) > Depth(Side(s', Other(dir))))
  {
    if s.Leaf? {
      assert Up([], x, 1) == Balance(x);
    } else {
      var below := Side(s, dir);
      EdgeInsertLevel(below, dir, x);
      UpFirst(FrameOf(s, dir), Edge(below, dir), x);
      EdgeStep(s, dir, Up(Edge(below, dir), x, |Edge(below, dir)| + 1));
    }
  }

  // One level of that: the deeper subtree takes the place of the old one.
  lemma {:induction false} EdgeStep(s: Shape, dir: Dir, below: Shape)
    requires s.Node? && Exact(s) && Level(s) && Exact(below) && Level(below) && below.Node?
    requires Depth(Side(s, dir)) <= Depth(below) <= Depth(Side(s, dir)) + 1
    requires Side(s, dir).Node? && Depth(below) > Depth(Side(s, dir)) ==>
               Depth(Side(below, dir)) > Depth(Side(below, Other(dir)))
    ensures var s' := Balance(Fill(FrameOf(s, dir), below));
      && Exact(s') && Level(s') && Depth(s) <= Depth(s') <= Depth(s) + 1
      && s'.Node? && (Depth(s') > Depth(s) ==> Depth(Side(s', dir)) > Depth(Side(s', Other(dir))))
  {
    var t := Fill(FrameOf(s, dir), below);
    BalanceExact(t);
    if Depth(below) == Depth(Side(s, Other(dir))) + 2 {
      BalanceLevelIff(t, dir);
      BalanceDepthIff(t, dir);
    } else {
      BalanceTop(t, dir);
    }
  }

  // An insertion between two keys need not: 2 into the level tree of 1 and 3.
  lemma {:induction false} InnerInsertUneven(k: seq<nat>)
    requires |k| == 3
    ensures var x := Join(k[1], Leaf, Leaf);
      var s, ctx := Join(k[0], Leaf, Single(k[2])), [FrameOf(Join(k[0], Leaf, Single(k[2])), R), FrameOf(Single(k[2]), L)];
      Plug(ctx, Leaf) == s && Exact(s) && Level(s) && Depth(Up(ctx, x, 3)) == 3 && !Level(Up(ctx, x, 3))
  {
    var x := Join(k[1], Leaf, Leaf);
    var f, g := FrameOf(Join(k[0], Leaf, Single(k[2])), R), FrameOf(Single(k[2]), L);
    assert [f, g][..1] == [f] && [f][..0] == [];
    assert Plug([f, g], Leaf) == Plug([f], Single(k[2]));
    assert Plug([f], Single(k[2])) == Fill(f, Single(k[2]));
    assert Up([f, g], x, 3) == Up([f], Fill(g, Balance(x)), 2);
    assert Up([f], Fill(g, x), 2) == Up([], Fill(f, Balance(Fill(g, x))), 1);
    assert Balance(Fill(g, x)) == Join(k[2], x, Leaf);
    assert Balance(Fill(f, Join(k[2], x, Leaf))) == Join(k[2], Join(k[0], Leaf, x), Leaf);
  }

  // The removal rotates the deeper child to the top, the right one when they are
  // equally deep, and goes on below it.
  lemma {:induction false} SinkTakesDeeper(s: Shape)
    requires s.Node? && s.left.Node? && s.right.Node?
    ensures var c := Sink(s).0;
      && c != []
      && (Depth(s.left) <= Depth(s.right) ==> c[0].p == s.right.p && c[0].dir == L && c[0].sib == s.right.right)
      && (Depth(s.left) > Depth(s.right) ==> c[0].p == s.left.p && c[0].dir == R && c[0].sib == s.left.left)
  {
  }

  // A removal that leaves a stale depth: the only child of the root is removed
  // through the root's slot for it.
  lemma RemovalCanLeaveStaleDepth()
    ensures var child := Node(2, 20, 0, 1, Leaf, Leaf);
      var ctx := [Frame(1, 10, 0, 2, R, Leaf)];
      Exact(Plug(ctx, child)) && !Exact(Plug(ctx, Removed(child)))
  {
    var child := Node(2, 20, 0, 1, Leaf, Leaf);
    var ctx := [Frame(1, 10, 0, 2, R, Leaf)];
    assert ctx[..0] == [];
    assert Plug(ctx, child) == Node(1, 10, 0, 2, Leaf, child);
    assert Sink(child) == ([], Leaf) && Removed(child) == Leaf;
    assert Plug(ctx, Leaf) == Node(1, 10, 0, 2, Leaf, Leaf);
  }
}
