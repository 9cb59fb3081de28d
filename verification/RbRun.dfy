/** Every run of insertions and deletions on one tree, from the empty one. */
module RbRun {
  import opened RbShape
  import opened RbDeficit
  import opened RbTree
  import opened RbDelete

  /** n is linked at an empty slot of p and rbtree_fixup called; or z is deleted. */
  datatype Op = Add(n: Node, p: Node?, slot: Slot) | Remove(z: Node)

  ghost predicate Empty(s: Shape, p: Node?, slot: Slot)
  {
    match slot
    case RootSlot => p == null && s.Nil?
    case LeftSlot => p != null && p in Nodes(s) && CellOf(s, null, p).left == null
    case RightSlot => p != null && p in Nodes(s) && CellOf(s, null, p).right == null
  }

  /** The slot exists and is empty, or the node is there. */
  ghost predicate Enabled(s: Shape, op: Op)
  {
    match op
    case Add(n, p, slot) => n !in Nodes(s) && Empty(s, p, slot)
    case Remove(z) => z in Nodes(s)
  }

  /** x at index i of xs, before what was there. */
  ghost function Put(xs: seq<Node>, i: nat, x: Node): seq<Node>
    requires i <= |xs|
  {
    xs[..i] + [x] + xs[i..]
  }

  /** What a step does to the sequence of nodes: a new node goes right before or right behind the
      node at whose slot it is linked. */
  ghost predicate Follows(xs: seq<Node>, op: Op, xs': seq<Node>)
  {
    match op
    case Add(n, p, slot) =>
      (match slot
       case RootSlot => xs == [] && xs' == [n]
       case LeftSlot => exists i :: 0 <= i < |xs| && xs[i] == p && xs' == Put(xs, i, n)
       case RightSlot => exists i :: 0 <= i < |xs| && xs[i] == p && xs' == Put(xs, i + 1, n))
    case Remove(z) => exists i :: 0 <= i < |xs| && xs[i] == z && xs' == xs[..i] + xs[i + 1..]
  }

  /** The position of an empty slot, and what is on both sides of it. */
  lemma EmptySlot(t: RbTree, p: Node?, slot: Slot) returns (k: Ctx)
    requires t.Valid() && Empty(t.shape, p, slot)
    ensures t.shape == Plug(k, Nil) && SlotOf(k, slot) && p == Above(k)
    ensures slot.RootSlot? ==> Before(k) == After(k) == []
    ensures slot.LeftSlot? ==> After(k) != [] && After(k)[0] == p
    ensures slot.RightSlot? ==> Before(k) != [] && Before(k)[|Before(k)| - 1] == p
  {
    if p == null {
      k := Hole;
    } else {
      var k0, s0 := Locate(Hole, t.shape, p);
      t.Focus(k0, s0);
      k := if slot.LeftSlot? then InLeft(k0, p, s0.c, s0.r) else InRight(k0, s0.l, p, s0.c);
    }
  }

  /** A node between what is before and what is behind its slot. */
  lemma Placed(b: seq<Node>, a: seq<Node>, n: Node, p: Node?, slot: Slot)
    requires slot.RootSlot? ==> a == b == []
    requires slot.LeftSlot? ==> a != [] && a[0] == p
    requires slot.RightSlot? ==> b != [] && b[|b| - 1] == p
    ensures Follows(b + a, Add(n, p, slot), b + [n] + a)
  {
    var xs := b + a;
    assert xs[..|b|] == b && xs[|b|..] == a;
    assert b + [n] + a == Put(xs, |b|, n);
    match slot
    case RootSlot =>
    case LeftSlot => assert xs[|b|] == p;
    case RightSlot => assert xs[|b| - 1] == p && Put(xs, |b| - 1 + 1, n) == Put(xs, |b|, n);
  }

  method Insert(t: RbTree, n: Node, p: Node?, slot: Slot)
    requires t.Valid() && Tinted(t.shape) && Enabled(t.shape, Add(n, p, slot))
    modifies t, t.nodes, n
    ensures t.Valid() && Tinted(t.shape) && KeepsBalance(old(t.shape), t.shape) && t.nodes == old(t.nodes) + {n}
    ensures Follows(old(Inorder(t.shape)), Add(n, p, slot), Inorder(t.shape))
  {
    ghost var k := EmptySlot(t, p, slot);
    Placed(Before(k), After(k), n, p, slot);
    t.Insert(n, slot, p, k);
  }

  /** The deletion of z from t stops: z is at the top of s in the hole of k, and lacks support. */
  ghost predicate Stuck(t: Shape, op: Op, k: Ctx, s: Shape)
  {
    op.Remove? && s.Bin? && s.n == op.z && t == Plug(k, s) && !Survives(k, s)
  }

  method Drop(t: RbTree, z: Node) returns (ok: bool, ghost k: Ctx, ghost s: Shape)
    requires t.Valid() && Tinted(t.shape) && z in t.nodes
    modifies t, t.nodes
    ensures !ok ==> Stuck(old(t.shape), Remove(z), k, s)
    ensures ok ==> t.Valid() && Tinted(t.shape) && t.nodes == old(t.nodes) - {z}
    ensures ok ==> Follows(old(Inorder(t.shape)), Remove(z), Inorder(t.shape))
  {
    ok, k, s := Delete(t, z);
    if ok {
      ghost var l, r := Before(k) + Inorder(s.l), Inorder(s.r) + After(k);
      ghost var xs := l + [z] + r;
      assert xs[|l|] == z && xs[..|l|] == l && xs[|l| + 1..] == r;
    }
  }

  /** The nodes that are ever linked. */
  ghost function Linked(ops: seq<Op>): set<Node>
  {
    set op | op in ops && op.Add? :: op.n
  }

  ghost predicate Step(s: Shape, op: Op, s': Shape)
  {
    if Enabled(s, op) then Follows(Inorder(s), op, Inorder(s')) else s' == s
  }

  /** The trees after each step, all of them rightly coloured. */
  ghost predicate Trace(ops: seq<Op>, ts: seq<Shape>)
  {
    && 1 <= |ts| <= |ops| + 1 && ts[0] == Nil && (forall i | 0 <= i < |ts| :: Tinted(ts[i]))
    && (forall i, j | 0 <= i < j < |ts| && j == i + 1 :: Step(ts[i], ops[i], ts[j]))
  }

  /** Is the slot there and empty? */
  method Vacant(t: RbTree, live: set<Node>, p: Node?, slot: Slot) returns (yes: bool)
    requires t.Valid() && live == t.nodes
    ensures yes <==> Empty(t.shape, p, slot)
  {
    match slot
    case RootSlot => yes := p == null && t.root == null;
    case LeftSlot => yes := p != null && p in live && p.left == null;
    case RightSlot => yes := p != null && p in live && p.right == null;
  }

  /** One step, unless a deletion stops for lack of a sibling. */
  method Do(t: RbTree, op: Op, live: set<Node>) returns (ok: bool, live': set<Node>, ghost k: Ctx, ghost s: Shape)
    requires t.Valid() && Tinted(t.shape) && live == t.nodes
    modifies t, t.nodes, if op.Add? then {op.n} else {}
    ensures !ok ==> Stuck(old(t.shape), op, k, s)
    ensures ok ==> t.Valid() && Tinted(t.shape) && Step(old(t.shape), op, t.shape)
    ensures ok ==> t.nodes == live' <= old(t.nodes) + if op.Add? then {op.n} else {}
    ensures op.Add? ==> ok && KeepsBalance(old(t.shape), t.shape)
  {
    ok, live', k, s := true, live, Hole, Nil;
    match op {
      case Add(n, p, slot) =>
        var yes := Vacant(t, live, p, slot);
        if n !in live && yes {
          Insert(t, n, p, slot);
          live' := live + {n};
        }
      case Remove(z) =>
        if z in live {
          ok, k, s := Drop(t, z);
          live' := live - {z};
        }
    }
  }

  /** All runs; a step whose slot is taken or whose node is not there changes nothing.  Until a
      deletion stops for lack of a sibling the trees are rightly coloured and hold the nodes in the
      order that the steps give; insertions alone give red-black trees. */
  method Run(ops: seq<Op>) returns (t: RbTree, ok: bool, ghost ts: seq<Shape>, ghost k: Ctx, ghost s: Shape)
    modifies Linked(ops)
    ensures Trace(ops, ts)
    ensures ok ==> |ts| == |ops| + 1 && t.Valid() && t.shape == ts[|ops|]
    ensures !ok ==> |ts| <= |ops| && Stuck(ts[|ts| - 1], ops[|ts| - 1], k, s)
    ensures (forall op | op in ops :: op.Add?) ==> ok && RedBlack(t.shape)
  {
    t := new RbTree();
    ok, ts, k, s := true, [Nil], Hole, Nil;
    var live: set<Node> := {};
    for i := 0 to |ops|
      invariant ok && Trace(ops, ts) && |ts| == i + 1
      invariant fresh(t) && t.Valid() && t.nodes == live <= Linked(ops) && t.shape == ts[i]
      invariant (forall op | op in ops :: op.Add?) ==> Balanced(t.shape)
    {
      assert ops[i] in ops;
      ok, live, k, s := Do(t, ops[i], live);
      if !ok {
        return;
      }
      ts := ts + [t.shape];
    }
  }
}
