/** src/kernel/klib/rbtree.c: nodes with parent pointers, rewired in place.

Every method that writes nodes is specified by what it does to `shape`, the tree
that the pointers stand for.  Positions are given by a ghost context: the tree is
`Plug(k, s)` and the code works on the subtree `s`.
*/
module RbTree {
  import opened RbShape

  ghost function Read(n: Node): Cell
    reads n
  {
    Cell(n.color, n.left, n.right, n.parent)
  }

  /** What `pp` points to: the root pointer or a child pointer of the parent node. */
  datatype Slot = RootSlot | LeftSlot | RightSlot

  ghost predicate SlotOf(k: Ctx, slot: Slot)
  {
    match k
    case Hole => slot.RootSlot?
    case InLeft(_, _, _, _) => slot.LeftSlot?
    case InRight(_, _, _, _) => slot.RightSlot?
  }

  class RbTree {
    var root: Node?
    ghost var shape: Shape
    ghost var nodes: set<Node>

    /** The pointers are exactly those of `shape`: children, parents and colours. */
    ghost predicate Valid()
      reads this, nodes
    {
      && nodes == Nodes(shape) && root == Top(shape) && Distinct(shape)
      && forall n | n in nodes :: Read(n) == CellOf(shape, null, n)
    }

    constructor ()
      ensures Valid() && shape == Nil
    {
      root := null;
      shape, nodes := Nil, {};
    }

    /** What the fields say at a position of the tree. */
    lemma Focus(k: Ctx, s: Shape)
      requires Valid() && shape == Plug(k, s)
      ensures nodes == CtxNodes(k) + Nodes(s) && CtxNodes(k) !! Nodes(s)
      ensures Distinct(s) && CtxDistinct(k)
      ensures s.Bin? ==> Read(s.n) == Cell(s.c, Top(s.l), Top(s.r), Above(k))
      ensures s.Bin? ==> (s.n == root <==> k.Hole?)
      ensures k.Hole? ==> root == Top(s)
      ensures k.InLeft? ==> Read(k.n) == Cell(k.c, Top(s), Top(k.r), Above(k.up))
      ensures k.InRight? ==> Read(k.n) == Cell(k.c, Top(k.l), Top(s), Above(k.up))
    {
      NodesPlug(k, s);
      DistinctPlug(k, s);
      TopPlug(k, s, s);
      if s.Bin? {
        CellPlug(k, s, s.n);
      }
      if !k.Hole? {
        CellPlug(k, s, k.n);
      }
    }

    /** `if (!x->parent) t->root = y; else if (x == x->parent->left) ...` */
    method Rehang(x: Node, y: Node?, p: Node?)
      modifies this`root, if p == null then {} else {p}
      ensures p == null ==> root == y
      ensures p != null ==> root == old(root) && Read(p) == old(Rehung(Read(p), x, y))
    {
      if p == null {
        root := y;
      } else if p.left == x {
        p.left := y;
      } else {
        p.right := y;
      }
    }

    /** The pointer writes of rotate_left, node by node. */
    method SwingLeft(x: Node) returns (y: Node)
      requires x in nodes && x.right != null && x.right in nodes && x.right != x
      requires var b := x.right.left; b != null ==> b in nodes && b != x && b != x.right
      requires var p := x.parent; p != null ==> p in nodes && p != x && p != x.right && p != x.right.left
      modifies this`root, nodes
      ensures y == old(x.right)
      ensures root == if old(x.parent) == null then y else old(root)
      ensures forall n | n in nodes ::
        Read(n) == var c := old(Read(n));
                   if n == x then c.(right := old(x.right.left), parent := y)
                   else if n == y then c.(left := x, parent := old(x.parent))
                   else if n == old(x.right.left) then c.(parent := x)
                   else if n == old(x.parent) then Rehung(c, x, y)
                   else c
    {
      y := x.right;
      x.right := y.left;
      if y.left != null {
        y.left.parent := x;
      }
      y.parent := x.parent;
      Rehang(x, y, x.parent);
      y.left := x;
      x.parent := y;
    }

    lemma LeftReady(k: Ctx, a: Shape, x: Node, cx: Color, sy: Shape)
      requires Valid() && shape == Plug(k, Bin(a, x, cx, sy)) && sy.Bin?
      ensures {x, sy.n} <= nodes && x != sy.n
      ensures x.right == sy.n && sy.n.left == Top(sy.l) && x.parent == Above(k)
      ensures sy.l.Bin? ==> sy.l.n in nodes - {x, sy.n}
      ensures !k.Hole? ==> k.n in nodes - {x, sy.n} && k.n != Top(sy.l)
    {
      Focus(k, Bin(a, x, cx, sy));
      Focus(InRight(k, a, x, cx), sy);
    }

    method RotateLeft(x: Node, ghost k: Ctx, ghost a: Shape, ghost cx: Color, ghost sy: Shape)
        returns (y: Node)
      requires Valid() && shape == Plug(k, Bin(a, x, cx, sy)) && sy.Bin?
      modifies this, nodes
      ensures Valid() && nodes == old(nodes) && y == sy.n
      ensures shape == Plug(k, LeftRotated(a, x, cx, sy))
      ensures Inorder(shape) == old(Inorder(shape))
    {
      LeftReady(k, a, x, cx, sy);
      y := SwingLeft(x);
      RotatedNodes(k, a, x, cx, sy);
      RotatedInorder(k, a, x, cx, sy);
      TopPlug(k, Bin(a, x, cx, sy), LeftRotated(a, x, cx, sy));
      forall n | n in nodes
        ensures Read(n) == CellOf(Plug(k, LeftRotated(a, x, cx, sy)), null, n)
      {
        LeftRotatedCell(k, a, x, cx, sy, n);
      }
      shape := Plug(k, LeftRotated(a, x, cx, sy));
    }

    /** The pointer writes of rotate_right, node by node. */
    method SwingRight(y: Node) returns (x: Node)
      requires y in nodes && y.left != null && y.left in nodes && y.left != y
      requires var b := y.left.right; b != null ==> b in nodes && b != y && b != y.left
      requires var p := y.parent; p != null ==> p in nodes && p != y && p != y.left && p != y.left.right
      modifies this`root, nodes
      ensures x == old(y.left)
      ensures root == if old(y.parent) == null then x else old(root)
      ensures forall n | n in nodes ::
        Read(n) == var c := old(Read(n));
                   if n == y then c.(left := old(y.left.right), parent := x)
                   else if n == x then c.(right := y, parent := old(y.parent))
                   else if n == old(y.left.right) then c.(parent := y)
                   else if n == old(y.parent) then Rehung(c, y, x)
                   else c
    {
      x := y.left;
      y.left := x.right;
      if x.right != null {
        x.right.parent := y;
      }
      x.parent := y.parent;
      Rehang(y, x, y.parent);
      x.right := y;
      y.parent := x;
    }

    lemma RightReady(k: Ctx, sx: Shape, y: Node, cy: Color, b: Shape)
      requires Valid() && shape == Plug(k, Bin(sx, y, cy, b)) && sx.Bin?
      ensures {y, sx.n} <= nodes && y != sx.n
      ensures y.left == sx.n && sx.n.right == Top(sx.r) && y.parent == Above(k)
      ensures sx.r.Bin? ==> sx.r.n in nodes - {y, sx.n}
      ensures !k.Hole? ==> k.n in nodes - {y, sx.n} && k.n != Top(sx.r)
    {
      Focus(k, Bin(sx, y, cy, b));
      Focus(InLeft(k, y, cy, b), sx);
    }

    method RotateRight(y: Node, ghost k: Ctx, ghost sx: Shape, ghost cy: Color, ghost b: Shape)
        returns (x: Node)
      requires Valid() && shape == Plug(k, Bin(sx, y, cy, b)) && sx.Bin?
      modifies this, nodes
      ensures Valid() && nodes == old(nodes) && x == sx.n
      ensures shape == Plug(k, RightRotated(sx, y, cy, b))
      ensures Inorder(shape) == old(Inorder(shape))
    {
      RightReady(k, sx, y, cy, b);
      x := SwingRight(y);
      RotatedNodes(k, sx.l, sx.n, sx.c, Bin(sx.r, y, cy, b));
      RotatedInorder(k, sx.l, sx.n, sx.c, Bin(sx.r, y, cy, b));
      TopPlug(k, Bin(sx, y, cy, b), RightRotated(sx, y, cy, b));
      forall n | n in nodes
        ensures Read(n) == CellOf(Plug(k, RightRotated(sx, y, cy, b)), null, n)
      {
        RightRotatedCell(k, sx, y, cy, b, n);
      }
      shape := Plug(k, RightRotated(sx, y, cy, b));
    }

    /** `x->color = c` */
    method Paint(x: Node, c: Color, ghost k: Ctx, ghost s: Shape)
      requires Valid() && shape == Plug(k, s) && s.Bin? && s.n == x
      modifies this`shape, nodes
      ensures Valid() && shape == Plug(k, s.(c := c))
      ensures Inorder(shape) == old(Inorder(shape))
    {
      Focus(k, s);
      x.color := c;
      forall n | n in nodes
        ensures Nodes(Plug(k, s.(c := c))) == nodes && Distinct(Plug(k, s.(c := c)))
        ensures Read(n) == CellOf(Plug(k, s.(c := c)), null, n)
      {
        PaintedCell(k, s, c, n);
      }
      TopPlug(k, s, s.(c := c));
      InorderPlug(k, s);
      InorderPlug(k, s.(c := c));
      shape := Plug(k, s.(c := c));
    }

    /** `p->color = BLACK; u->color = BLACK; g->color = RED;` on the two children of g. */
    method Recolor(p: Node, u: Node, g: Node, ghost k: Ctx, ghost s: Shape)
      requires Valid() && shape == Plug(k, s) && s.Bin? && s.l.Bin? && s.r.Bin? && s.n == g
      requires (p == s.l.n && u == s.r.n) || (p == s.r.n && u == s.l.n)
      modifies this`shape, nodes
      ensures Valid() && Inorder(shape) == old(Inorder(shape))
      ensures shape == Plug(k, Bin(Blackened(s.l), g, Red, Blackened(s.r)))
    {
      Focus(k, s);
      ghost var left := p == s.l.n;
      ghost var bl, br := Blackened(s.l), Blackened(s.r);
      Paint(p, Black, if left then InLeft(k, g, s.c, s.r) else InRight(k, s.l, g, s.c),
            if left then s.l else s.r);
      Paint(u, Black, if left then InRight(k, bl, g, s.c) else InLeft(k, g, s.c, br),
            if left then s.r else s.l);
      Paint(g, Red, k, Bin(bl, g, s.c, br));
    }

    /** `p->color = BLACK; g->color = RED; rotate_right(t, g);` */
    method LiftLeft(p: Node, g: Node, ghost k: Ctx, ghost s: Shape)
      requires Valid() && shape == Plug(k, s) && s.Bin? && s.l.Bin? && s.n == g && s.l.n == p
      modifies this, nodes
      ensures Valid() && nodes == old(nodes) && Inorder(shape) == old(Inorder(shape))
      ensures shape == Plug(k, Bin(s.l.l, p, Black, Bin(s.l.r, g, Red, s.r)))
    {
      Paint(p, Black, InLeft(k, g, s.c, s.r), s.l);
      Paint(g, Red, k, Bin(Blackened(s.l), g, s.c, s.r));
      var _ := RotateRight(g, k, Blackened(s.l), Red, s.r);
    }

    /** `p->color = BLACK; g->color = RED; rotate_left(t, g);` */
    method LiftRight(p: Node, g: Node, ghost k: Ctx, ghost s: Shape)
      requires Valid() && shape == Plug(k, s) && s.Bin? && s.r.Bin? && s.n == g && s.r.n == p
      modifies this, nodes
      ensures Valid() && nodes == old(nodes) && Inorder(shape) == old(Inorder(shape))
      ensures shape == Plug(k, Bin(Bin(s.l, g, Red, s.r.l), p, Black, s.r.r))
    {
      Paint(p, Black, InRight(k, s.l, g, s.c), s.r);
      Paint(g, Red, k, Bin(s.l, g, s.c, Blackened(s.r)));
      var _ := RotateLeft(g, k, s.l, Red, Blackened(s.r));
    }

    /** The nodes fixup reads before it decides what to do. */
    lemma Family(k: Ctx, s: Shape)
      requires Valid() && shape == Plug(k, s) && RedAt(k, s) && !k.Hole? && k.c.Red?
      ensures {s.n, k.n} <= nodes && !k.up.Hole? && k.up.n in nodes && k.up.c.Black?
      ensures s.n.parent == k.n && k.n.parent == k.up.n
      ensures k.n.left == s.n <==> k.InLeft?
      ensures k.n.right == s.n <==> k.InRight?
      ensures k.up.n.left == k.n <==> k.up.InLeft?
      ensures (if k.up.InLeft? then k.up.n.right else k.up.n.left) == Top(Sibling(k.up))
      ensures Sibling(k.up).Bin? ==>
                Sibling(k.up).n in nodes && Sibling(k.up).n.color == Sibling(k.up).c
    {
      Grandparent(k, s);
      Focus(k, s);
      Focus(k.up, Around(k, s));
      if Sibling(k.up).Bin? {
        if k.up.InLeft? {
          Focus(InRight(k.up.up, Around(k, s), k.up.n, k.up.c), k.up.r);
        } else {
          Focus(InLeft(k.up.up, k.up.n, k.up.c, Around(k, s)), k.up.l);
        }
      }
    }

    /** One round of fixup where p is a left child. */
    method FixLeft(z: Node, p: Node, g: Node, ghost k: Ctx, ghost s: Shape)
        returns (z': Node, ghost k': Ctx, ghost s': Shape)
      requires Valid() && shape == Plug(k, s) && RedAt(k, s) && s.n == z
      requires !k.Hole? && k.c.Red? && k.up.InLeft? && k.n == p && k.up.n == g
      modifies this, nodes
      ensures Valid() && nodes == old(nodes) && Inorder(shape) == old(Inorder(shape))
      ensures shape == Plug(k', s') && RedAt(k', s') && s'.n == z' && KeepsBalance(old(shape), shape)
      ensures Depth(k') < Depth(k)
    {
      Family(k, s);
      ghost var k2, su := k.up.up, k.up.r;
      z', k', s' := z, k, s;
      var u := g.right;
      if u != null && u.color.Red? {
        Recolor(p, u, g, k2, Bin(Around(k, s), g, Black, su));
        RecolorStep(k, s);
        z', k', s' := g, k2, Bin(Blackened(Around(k, s)), g, Red, Blackened(su));
      } else {
        var p', g' := p, g;
        if z == p.right {
          z' := p;
          StraightenStep(k, s);
          k', s' := InLeft(k.up, z, Red, s.r), Bin(k.l, p, Red, s.l);
          var _ := RotateLeft(z', k.up, k.l, Red, s);
          Family(k', s');
          p' := z'.parent;
          g' := p'.parent;
        }
        RotateStep(k', s');
        LiftLeft(p', g', k2, Bin(Around(k', s'), g, Black, su));
        k' := InLeft(k2, p', Black, Bin(k'.r, g, Red, su));
      }
    }

    /** One round of fixup where p is a right child. */
    method FixRight(z: Node, p: Node, g: Node, ghost k: Ctx, ghost s: Shape)
        returns (z': Node, ghost k': Ctx, ghost s': Shape)
      requires Valid() && shape == Plug(k, s) && RedAt(k, s) && s.n == z
      requires !k.Hole? && k.c.Red? && k.up.InRight? && k.n == p && k.up.n == g
      modifies this, nodes
      ensures Valid() && nodes == old(nodes) && Inorder(shape) == old(Inorder(shape))
      ensures shape == Plug(k', s') && RedAt(k', s') && s'.n == z' && KeepsBalance(old(shape), shape)
      ensures Depth(k') < Depth(k)
    {
      Family(k, s);
      ghost var k2, su := k.up.up, k.up.l;
      z', k', s' := z, k, s;
      var u := g.left;
      if u != null && u.color.Red? {
        Recolor(p, u, g, k2, Bin(su, g, Black, Around(k, s)));
        RecolorStep(k, s);
        z', k', s' := g, k2, Bin(Blackened(su), g, Red, Blackened(Around(k, s)));
      } else {
        var p', g' := p, g;
        if z == p.left {
          z' := p;
          StraightenStep(k, s);
          k', s' := InRight(k.up, s.l, z, Red), Bin(s.r, p, Red, k.r);
          var _ := RotateRight(z', k.up, s, Red, k.r);
          Family(k', s');
          p' := z'.parent;
          g' := p'.parent;
        }
        RotateStep(k', s');
        LiftRight(p', g', k2, Bin(su, g, Black, Around(k', s')));
        k' := InRight(k2, Bin(su, g, Red, k'.l), p', Black);
      }
    }

    /** rbtree_fixup: a red node at any position of a tree that is otherwise rightly coloured. */
    method Fixup(n: Node, ghost k0: Ctx, ghost s0: Shape)
      requires Valid() && shape == Plug(k0, s0) && RedAt(k0, s0) && s0.n == n
      modifies this, nodes
      ensures Valid() && nodes == old(nodes)
      ensures Tinted(shape) && KeepsBalance(old(shape), shape) && Inorder(shape) == old(Inorder(shape))
    {
      var z := n;
      ghost var k, s := k0, s0;
      Focus(k, s);
      while z != root && z.parent != null && z.parent.color.Red?
        invariant Valid() && nodes == old(nodes) && Inorder(shape) == old(Inorder(shape))
        invariant shape == Plug(k, s) && RedAt(k, s) && s.n == z && z in nodes && KeepsBalance(old(shape), shape)
        decreases Depth(k)
      {
        Focus(k, s);
        Family(k, s);
        var p := z.parent;
        var g := p.parent;
        if p == g.left {
          z, k, s := FixLeft(z, p, g, k, s);
        } else {
          z, k, s := FixRight(z, p, g, k, s);
        }
        Focus(k, s);
      }
      Focus(k, s);
      FixupDone(k, s);
      ghost var whole := shape;
      TopPlug(k, s, s);
      Paint(root, Black, Hole, whole);
    }

    /** `*pp = n` */
    method Store(slot: Slot, p: Node?, n: Node)
      requires slot.RootSlot? <==> p == null
      modifies this`root, if p == null then {} else {p}
      ensures root == if p == null then n else old(root)
      ensures p != null ==>
        Read(p) == if slot.LeftSlot? then old(Read(p)).(left := n) else old(Read(p)).(right := n)
    {
      match slot
      case RootSlot => root := n;
      case LeftSlot => p.left := n;
      case RightSlot => p.right := n;
    }

    /** The writes of replace, node by node. */
    method Supplant(n: Node, old_: Node, slot: Slot, p: Node?)
      requires n !in nodes && old_ in nodes && old_.parent == p && old_ != p
      requires slot.RootSlot? <==> p == null
      requires p != null ==> p in nodes && p != old_.left && p != old_.right
      requires old_.left != null ==> old_.left in nodes && old_.left != old_
      requires old_.right != null ==> old_.right in nodes && old_.right != old_
      modifies this`root, nodes, n
      ensures Read(n) == old(Read(old_))
      ensures root == if p == null then n else old(root)
      ensures forall m | m in nodes ::
        Read(m) == var c := old(Read(m));
                   if m == old(old_.left) || m == old(old_.right) then c.(parent := n)
                   else if m == p then (if slot.LeftSlot? then c.(left := n) else c.(right := n))
                   else c
    {
      n.color := old_.color;
      n.left := old_.left;
      n.right := old_.right;
      n.parent := old_.parent;
      if old_.left != null {
        old_.left.parent := n;
      }
      if old_.right != null {
        old_.right.parent := n;
      }
      Store(slot, p, n);
    }

    /** replace: n stands in for the node in the slot. */
    method Replace(n: Node, old_: Node, slot: Slot, p: Node?, ghost k: Ctx, ghost s: Shape)
      requires Valid() && shape == Plug(k, s) && s.Bin? && s.n == old_ && n !in nodes
      requires SlotOf(k, slot) && p == Above(k)
      modifies this, nodes, n
      ensures Valid() && nodes == old(nodes) - {old_} + {n}
      ensures shape == Plug(k, s.(n := n))
    {
      Focus(k, s);
      Supplant(n, old_, slot, p);
      ReplacedNodes(k, s, n);
      TopPlug(k, s, s.(n := n));
      nodes := nodes - {old_} + {n};
      forall m | m in nodes
        ensures Read(m) == CellOf(Plug(k, s.(n := n)), null, m)
      {
        ReplacedCell(k, s, n, m);
      }
      shape := Plug(k, s.(n := n));
    }

    /** rbtree_link: n becomes a red leaf in an empty slot, or stands in for the
        node that occupies the slot. */
    method Link(n: Node, slot: Slot, p: Node?, ghost k: Ctx, ghost s: Shape)
      requires Valid() && shape == Plug(k, s) && n !in nodes
      requires SlotOf(k, slot) && p == Above(k)
      modifies this, nodes, n
      ensures Valid()
      ensures s.Nil? ==> shape == Plug(k, Bin(Nil, n, Red, Nil)) && nodes == old(nodes) + {n}
      ensures s.Bin? ==> shape == Plug(k, s.(n := n)) && nodes == old(nodes) - {s.n} + {n}
    {
      Focus(k, s);
      var cur := match slot case RootSlot => root case LeftSlot => p.left case RightSlot => p.right;
      if cur != null {
        Replace(n, cur, slot, p, k, s);
        return;
      }
      n.color := Red;
      n.left := null;
      n.right := null;
      n.parent := p;
      Store(slot, p, n);

      TopPlug(k, Nil, Bin(Nil, n, Red, Nil));
      LeafCell(k, n, n);
      nodes := nodes + {n};
      forall m | m in nodes
        ensures Read(m) == CellOf(Plug(k, Bin(Nil, n, Red, Nil)), null, m)
      {
        LeafCell(k, n, m);
      }
      shape := Plug(k, Bin(Nil, n, Red, Nil));
    }

    /** rbtree_link into an empty slot followed by rbtree_fixup, as callers use them. */
    method Insert(n: Node, slot: Slot, p: Node?, ghost k: Ctx)
      requires Valid() && Tinted(shape) && shape == Plug(k, Nil) && n !in nodes
      requires SlotOf(k, slot) && p == Above(k)
      modifies this, nodes, n
      ensures Valid() && Tinted(shape) && KeepsBalance(old(shape), shape) && nodes == old(nodes) + {n}
      ensures old(Inorder(shape)) == Before(k) + After(k)
      ensures Inorder(shape) == Before(k) + [n] + After(k)
    {
      NewLeaf(k, n);
      Link(n, slot, p, k, Nil);
      Fixup(n, k, Bin(Nil, n, Red, Nil));
    }
  }
}
