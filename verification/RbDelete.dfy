/** src/kernel/klib/rbtree.c: fixup_del, minimum and rbtree_delete. */
module RbDelete {
  import opened RbShape
  import opened RbDeficit
  import opened RbTree

  /** What fixup_del reads at x and at its parent. */
  lemma Upward(t: RbTree, k: Ctx, s: Shape)
    requires t.Valid() && t.shape == Plug(k, s) && s.Bin? && !k.Hole?
    ensures {s.n, k.n} <= t.nodes && s.n.parent == k.n && (k.n.left == s.n <==> k.InLeft?) && k.n.color == k.c
    ensures (if k.InLeft? then k.n.right else k.n.left) == Top(Sibling(k))
  {
    t.Focus(k, s);
    t.Focus(k.up, Around(k, s));
  }

  /** What it reads at the sibling. */
  lemma Neighbours(t: RbTree, k: Ctx, s: Shape)
    requires t.Valid() && t.shape == Plug(k, s) && s.Bin? && !k.Hole? && Sibling(k).Bin?
    ensures var w := Sibling(k);
      && w.n in t.nodes && w.n.color == w.c && w.n.left == Top(w.l) && w.n.right == Top(w.r)
      && (w.l.Bin? ==> w.l.n in t.nodes && w.l.n.color == w.l.c)
      && (w.r.Bin? ==> w.r.n in t.nodes && w.r.n.color == w.r.c)
  {
    var w := Sibling(k);
    var kw := if k.InLeft? then InRight(k.up, s, k.n, k.c) else InLeft(k.up, k.n, k.c, s);
    t.Focus(kw, w);
    if w.l.Bin? {
      t.Focus(InLeft(kw, w.n, w.c, w.r), w.l);
    }
    if w.r.Bin? {
      t.Focus(InRight(kw, w.l, w.n, w.c), w.r);
    }
  }

  /** `w->color = BLACK; p->color = RED; rotate_left(t, p);` for a red right child w of p */
  method LowerLeft(t: RbTree, p: Node, w: Node, ghost k: Ctx, ghost s: Shape)
    requires t.Valid() && t.shape == Plug(k, s) && s.Bin? && s.r.Bin? && s.n == p && s.r.n == w
    modifies t, t.nodes
    ensures t.Valid() && t.nodes == old(t.nodes) && Inorder(t.shape) == old(Inorder(t.shape))
    ensures t.shape == Plug(k, Bin(Bin(s.l, p, Red, s.r.l), w, Black, s.r.r))
  {
    t.Paint(w, Black, InRight(k, s.l, p, s.c), s.r);
    t.Paint(p, Red, k, Bin(s.l, p, s.c, Blackened(s.r)));
    var _ := t.RotateLeft(p, k, s.l, Red, Blackened(s.r));
  }

  /** `if (w->left) w->left->color = BLACK; w->color = RED; rotate_right(t, w);` */
  method TurnRight(t: RbTree, w: Node, ghost k: Ctx, ghost s: Shape)
    requires t.Valid() && t.shape == Plug(k, s) && s.Bin? && s.l.Bin? && s.n == w
    modifies t, t.nodes
    ensures t.Valid() && t.nodes == old(t.nodes) && Inorder(t.shape) == old(Inorder(t.shape))
    ensures t.shape == Plug(k, Bin(s.l.l, s.l.n, Black, Bin(s.l.r, w, Red, s.r)))
  {
    t.Focus(k, s);
    if w.left != null {
      t.Paint(w.left, Black, InLeft(k, w, s.c, s.r), s.l);
    }
    t.Paint(w, Red, k, Bin(Blackened(s.l), w, s.c, s.r));
    var _ := t.RotateRight(w, k, Blackened(s.l), Red, s.r);
  }

  /** `w->color = p->color; p->color = BLACK; if (w->right) ...; rotate_left(t, p);` */
  method PayLeft(t: RbTree, p: Node, w: Node, ghost k: Ctx, ghost s: Shape)
    requires t.Valid() && t.shape == Plug(k, s) && s.Bin? && s.r.Bin? && s.n == p && s.r.n == w
    modifies t, t.nodes
    ensures t.Valid() && t.nodes == old(t.nodes) && Inorder(t.shape) == old(Inorder(t.shape))
    ensures t.shape == Plug(k, Bin(Bin(s.l, p, Black, s.r.l), w, s.c, Blackened(s.r.r)))
  {
    t.Focus(k, s);
    t.Paint(w, p.color, InRight(k, s.l, p, s.c), s.r);
    ghost var w1 := s.r.(c := s.c);
    t.Paint(p, Black, k, Bin(s.l, p, s.c, w1));
    t.Focus(InRight(k, s.l, p, Black), w1);
    if w.right != null {
      t.Paint(w.right, Black, InRight(InRight(k, s.l, p, Black), w1.l, w, s.c), w1.r);
    }
    var _ := t.RotateLeft(p, k, s.l, Black, w1.(r := Blackened(w1.r)));
  }

  /** `w->color = BLACK; p->color = RED; rotate_right(t, p);` for a red left child w of p */
  method LowerRight(t: RbTree, p: Node, w: Node, ghost k: Ctx, ghost s: Shape)
    requires t.Valid() && t.shape == Plug(k, s) && s.Bin? && s.l.Bin? && s.n == p && s.l.n == w
    modifies t, t.nodes
    ensures t.Valid() && t.nodes == old(t.nodes) && Inorder(t.shape) == old(Inorder(t.shape))
    ensures t.shape == Plug(k, Bin(s.l.l, w, Black, Bin(s.l.r, p, Red, s.r)))
  {
    t.Paint(w, Black, InLeft(k, p, s.c, s.r), s.l);
    t.Paint(p, Red, k, Bin(Blackened(s.l), p, s.c, s.r));
    var _ := t.RotateRight(p, k, Blackened(s.l), Red, s.r);
  }

  /** `if (w->right) w->right->color = BLACK; w->color = RED; rotate_left(t, w);` */
  method TurnLeft(t: RbTree, w: Node, ghost k: Ctx, ghost s: Shape)
    requires t.Valid() && t.shape == Plug(k, s) && s.Bin? && s.r.Bin? && s.n == w
    modifies t, t.nodes
    ensures t.Valid() && t.nodes == old(t.nodes) && Inorder(t.shape) == old(Inorder(t.shape))
    ensures t.shape == Plug(k, Bin(Bin(s.l, w, Red, s.r.l), s.r.n, Black, s.r.r))
  {
    t.Focus(k, s);
    if w.right != null {
      t.Paint(w.right, Black, InRight(k, s.l, w, s.c), s.r);
    }
    t.Paint(w, Red, k, Bin(s.l, w, s.c, Blackened(s.r)));
    var _ := t.RotateLeft(w, k, s.l, Red, Blackened(s.r));
  }

  /** `w->color = p->color; p->color = BLACK; if (w->left) ...; rotate_right(t, p);` */
  method PayRight(t: RbTree, p: Node, w: Node, ghost k: Ctx, ghost s: Shape)
    requires t.Valid() && t.shape == Plug(k, s) && s.Bin? && s.l.Bin? && s.n == p && s.l.n == w
    modifies t, t.nodes
    ensures t.Valid() && t.nodes == old(t.nodes) && Inorder(t.shape) == old(Inorder(t.shape))
    ensures t.shape == Plug(k, Bin(Blackened(s.l.l), w, s.c, Bin(s.l.r, p, Black, s.r)))
  {
    t.Focus(k, s);
    t.Paint(w, p.color, InLeft(k, p, s.c, s.r), s.l);
    ghost var w1 := s.l.(c := s.c);
    t.Paint(p, Black, k, Bin(w1, p, s.c, s.r));
    t.Focus(InLeft(k, p, Black, s.r), w1);
    if w.left != null {
      t.Paint(w.left, Black, InLeft(InLeft(k, p, Black, s.r), w, s.c, w1.r), w1.l);
    }
    var _ := t.RotateRight(p, k, w1.(l := Blackened(w1.l)), Black, s.r);
  }

  /** The first half of a round where x is a left child: a red sibling is rotated away. */
  method LowerRedLeft(t: RbTree, x: Node, p: Node, ghost k: Ctx, ghost s: Shape) returns (w: Node?, ghost k': Ctx)
    requires t.Valid() && t.shape == Plug(k, s) && s.Bin? && s.n == x && k.InLeft? && k.n == p
    modifies t, t.nodes
    ensures t.Valid() && t.nodes == old(t.nodes) && Inorder(t.shape) == old(Inorder(t.shape))
    ensures k' == (if IsRed(Sibling(k)) then Lowered(k) else k) && t.shape == Plug(k', s) && w == Top(Sibling(k'))
  {
    k' := k;
    Upward(t, k, s);
    w := p.right;
    if w != null {
      Neighbours(t, k, s);
      if w.color.Red? {
        LowerLeft(t, p, w, k.up, Around(k, s));
        k' := Lowered(k);
        Upward(t, k', s);
        w := p.right;
      }
    }
  }

  /** The second half where some nephew is red. */
  method PayDebtLeft(t: RbTree, p: Node, w0: Node, ghost k: Ctx, ghost s: Shape)
    requires t.Valid() && t.shape == Plug(k, s) && s.Bin? && k.InLeft? && k.n == p
    requires Sibling(k).Bin? && Sibling(k).n == w0 && (IsRed(Sibling(k).l) || IsRed(Sibling(k).r))
    modifies t, t.nodes
    ensures t.Valid() && t.nodes == old(t.nodes) && Inorder(t.shape) == old(Inorder(t.shape))
    ensures var k' := if IsRed(FarChild(k)) then k else Turned(k); t.shape == Plug(k'.up, Paid(k', s))
  {
    var w := w0;
    ghost var k' := k;
    Neighbours(t, k, s);
    if w.right == null || w.right.color.Black? {
      TurnRight(t, w, InRight(k.up, s, p, k.c), k.r);
      k' := Turned(k);
      Upward(t, k', s);
      w := p.right;
    }
    PayLeft(t, p, w, k'.up, Around(k', s));
  }

  /** One round of fixup_del where x is a left child; it fails where the code would follow a null
      sibling. */
  method FixDelLeft(t: RbTree, x: Node, p: Node, ghost k: Ctx, ghost s: Shape)
      returns (ok: bool, x': Node, ghost k': Ctx, ghost s': Shape)
    requires t.Valid() && t.shape == Plug(k, s) && s.Bin? && s.n == x && k.InLeft? && k.n == p
    modifies t, t.nodes
    ensures ok <==> Round(k, s).At?
    ensures ok ==> t.Valid() && t.nodes == old(t.nodes) && Inorder(t.shape) == old(Inorder(t.shape))
    ensures ok ==> At(k', s') == Round(k, s) && t.shape == Plug(k', s') && s'.Bin? && s'.n == x'
  {
    ghost var k1;
    var w;
    w, k1 := LowerRedLeft(t, x, p, k, s);
    x', k', s', ok := x, k1, s, w != null;
    if !ok {
      return;
    }
    Neighbours(t, k1, s);
    if (w.left == null || w.left.color.Black?) && (w.right == null || w.right.color.Black?) {
      t.Paint(w, Red, InRight(k1.up, s, p, k1.c), k1.r);
      x', k', s' := p, k1.up, Bin(s, p, k1.c, k1.r.(c := Red));
    } else {
      PayDebtLeft(t, p, w, k1, s);
      k', s' := Hole, t.shape;
      ghost var k2 := if IsRed(FarChild(k1)) then k1 else Turned(k1);
      PlugBin(k2.up, Paid(k2, s));
      x' := t.root;
    }
  }

  /** The first half where x is a right child. */
  method LowerRedRight(t: RbTree, x: Node, p: Node, ghost k: Ctx, ghost s: Shape) returns (w: Node?, ghost k': Ctx)
    requires t.Valid() && t.shape == Plug(k, s) && s.Bin? && s.n == x && k.InRight? && k.n == p
    modifies t, t.nodes
    ensures t.Valid() && t.nodes == old(t.nodes) && Inorder(t.shape) == old(Inorder(t.shape))
    ensures k' == (if IsRed(Sibling(k)) then Lowered(k) else k) && t.shape == Plug(k', s) && w == Top(Sibling(k'))
  {
    k' := k;
    Upward(t, k, s);
    w := p.left;
    if w != null {
      Neighbours(t, k, s);
      if w.color.Red? {
        LowerRight(t, p, w, k.up, Around(k, s));
        k' := Lowered(k);
        Upward(t, k', s);
        w := p.left;
      }
    }
  }

  method PayDebtRight(t: RbTree, p: Node, w0: Node, ghost k: Ctx, ghost s: Shape)
    requires t.Valid() && t.shape == Plug(k, s) && s.Bin? && k.InRight? && k.n == p
    requires Sibling(k).Bin? && Sibling(k).n == w0 && (IsRed(Sibling(k).l) || IsRed(Sibling(k).r))
    modifies t, t.nodes
    ensures t.Valid() && t.nodes == old(t.nodes) && Inorder(t.shape) == old(Inorder(t.shape))
    ensures var k' := if IsRed(FarChild(k)) then k else Turned(k); t.shape == Plug(k'.up, Paid(k', s))
  {
    var w := w0;
    ghost var k' := k;
    Neighbours(t, k, s);
    if w.left == null || w.left.color.Black? {
      TurnLeft(t, w, InLeft(k.up, p, k.c, s), k.l);
      k' := Turned(k);
      Upward(t, k', s);
      w := p.left;
    }
    PayRight(t, p, w, k'.up, Around(k', s));
  }

  /** One round of fixup_del where x is a right child. */
  method FixDelRight(t: RbTree, x: Node, p: Node, ghost k: Ctx, ghost s: Shape)
      returns (ok: bool, x': Node, ghost k': Ctx, ghost s': Shape)
    requires t.Valid() && t.shape == Plug(k, s) && s.Bin? && s.n == x && k.InRight? && k.n == p
    modifies t, t.nodes
    ensures ok <==> Round(k, s).At?
    ensures ok ==> t.Valid() && t.nodes == old(t.nodes) && Inorder(t.shape) == old(Inorder(t.shape))
    ensures ok ==> At(k', s') == Round(k, s) && t.shape == Plug(k', s') && s'.Bin? && s'.n == x'
  {
    ghost var k1;
    var w;
    w, k1 := LowerRedRight(t, x, p, k, s);
    x', k', s', ok := x, k1, s, w != null;
    if !ok {
      return;
    }
    Neighbours(t, k1, s);
    if (w.right == null || w.right.color.Black?) && (w.left == null || w.left.color.Black?) {
      t.Paint(w, Red, InLeft(k1.up, p, k1.c, s), k1.l);
      x', k', s' := p, k1.up, Bin(k1.l.(c := Red), p, k1.c, s);
    } else {
      PayDebtRight(t, p, w, k1, s);
      k', s' := Hole, t.shape;
      ghost var k2 := if IsRed(FarChild(k1)) then k1 else Turned(k1);
      PlugBin(k2.up, Paid(k2, s));
      x' := t.root;
    }
  }

  /** One round of the loop of fixup_del. */
  method FixDelRound(t: RbTree, x: Node, ghost k: Ctx, ghost s: Shape)
      returns (ok: bool, x': Node, ghost k': Ctx, ghost s': Shape)
    requires t.Valid() && t.shape == Plug(k, s) && s.Bin? && s.n == x && !k.Hole?
    modifies t, t.nodes
    ensures ok <==> Round(k, s).At?
    ensures ok ==> t.Valid() && t.nodes == old(t.nodes) && Inorder(t.shape) == old(Inorder(t.shape))
    ensures ok ==> At(k', s') == Round(k, s) && t.shape == Plug(k', s') && s'.Bin? && s'.n == x'
  {
    Upward(t, k, s);
    var p := x.parent;
    if x == p.left {
      ok, x', k', s' := FixDelLeft(t, x, p, k, s);
    } else {
      ok, x', k', s' := FixDelRight(t, x, p, k, s);
    }
  }

  /** fixup_del on any tree. It gets through exactly when x is red or supported from above, and then
      the tree is what `Repair` says, with the same nodes in the same order. */
  method FixupDel(t: RbTree, x0: Node, ghost k0: Ctx, ghost s0: Shape) returns (ok: bool)
    requires t.Valid() && t.shape == Plug(k0, s0) && s0.Bin? && s0.n == x0
    modifies t, t.nodes
    ensures ok <==> IsRed(s0) || Supported(k0)
    ensures ok <==> Repair(k0, s0).At?
    ensures ok ==> t.Valid() && t.nodes == old(t.nodes) && t.shape == Repair(k0, s0).s
    ensures ok ==> Inorder(t.shape) == old(Inorder(t.shape))
  {
    RepairSupported(k0, s0);
    var x := x0;
    ghost var k, s := k0, s0;
    t.Focus(k, s);
    while x != t.root && x.color.Black?
      invariant t.Valid() && t.nodes == old(t.nodes) && Inorder(t.shape) == old(Inorder(t.shape))
      invariant t.shape == Plug(k, s) && s.Bin? && s.n == x
      invariant x in t.nodes && x.color == s.c && (x == t.root <==> k.Hole?)
      invariant Repair(k, s) == Repair(k0, s0)
      decreases Rank(k, s)
    {
      ghost var k1, s1 := k, s;
      ok, x, k, s := FixDelRound(t, x, k, s);
      if !ok {
        return;
      }
      RoundRank(k1, s1);
      t.Focus(k, s);
    }
    t.Paint(x, Black, k, s);
    ok := true;
  }

  method Minimum(t: RbTree, x0: Node, ghost k: Ctx, ghost s: Shape)
      returns (x: Node, ghost km: Ctx, ghost sm: Shape)
    requires t.Valid() && t.shape == Plug(k, s) && s.Bin? && s.n == x0
    ensures s == Plug(km, sm) && AllLeft(km) && sm.Bin? && sm.n == x && sm.l.Nil?
    ensures Inorder(s) != [] && x == Inorder(s)[0] && km == Spine(Hole, s)
  {
    x, km, sm := x0, Hole, s;
    t.Focus(k, s);
    PlugCompose(k, km, sm);
    while x.left != null
      invariant s == Plug(km, sm) && AllLeft(km) && sm.Bin? && sm.n == x
      invariant t.shape == Plug(Compose(k, km), sm)
      invariant x.left == Top(sm.l) && Spine(km, sm) == Spine(Hole, s)
      decreases sm
    {
      km, sm := InLeft(km, sm.n, sm.c, sm.r), sm.l;
      t.Focus(Compose(k, km), sm);
      x := x.left;
    }
    SuccessorFirst(km, sm);
  }

  /** `if (x) x->parent = z->parent;` and x takes the place of z. */
  method SpliceOut(t: RbTree, z: Node, x: Node?, ghost k: Ctx, ghost s: Shape)
    requires t.Valid() && t.shape == Plug(k, s) && s.Bin? && s.n == z
    requires (s.l.Nil? || s.r.Nil?) && x == Top(OnlyChild(s))
    modifies t, t.nodes
    ensures t.Valid() && t.shape == Plug(k, OnlyChild(s)) && t.nodes == old(t.nodes) - {z}
    ensures Read(z) == old(Read(z))
  {
    t.Focus(k, s);
    if x != null {
      assert x in Nodes(s) - {z};
      x.parent := z.parent;
    }
    t.Rehang(z, x, z.parent);
    SplicedNodes(k, s);
    TopPlug(k, s, OnlyChild(s));
    t.nodes := t.nodes - {z};
    forall n | n in t.nodes
      ensures Read(n) == CellOf(Plug(k, OnlyChild(s)), null, n)
    {
      SplicedCell(k, s, n);
    }
    t.shape := Plug(k, OnlyChild(s));
  }

  /** The writes at the end of the two-children case, node by node: y takes over the
      parent, the left subtree and the colour of z. */
  method TakeOver(t: RbTree, z: Node, y: Node, ghost all: set<Node>)
    requires {z, y} <= all && z != y && z.left != null && z.left in all - {z, y}
    requires z.parent != null ==> z.parent in all - {z, y, z.left}
    modifies t`root, all
    ensures t.root == if old(z.parent) == null then y else old(t.root)
    ensures forall n | n in all ::
      Read(n) == var c := old(Read(n));
                 if n == y then Cell(old(z.color), old(z.left), old(y.right), old(z.parent))
                 else if n == old(z.left) then c.(parent := y)
                 else if n == old(z.parent) then Rehung(c, z, y)
                 else c
  {
    t.Rehang(z, y, z.parent);
    y.parent := z.parent;
    y.left := z.left;
    y.left.parent := y;
    y.color := z.color;
  }

  /** y was the right child of z. */
  method PromoteChild(t: RbTree, z: Node, y: Node, ghost k: Ctx, ghost s: Shape)
    requires t.Valid() && t.shape == Plug(k, s) && s.Bin? && s.n == z && s.l.Bin?
    requires s.r.Bin? && s.r.n == y && s.r.l.Nil?
    modifies t, t.nodes
    ensures t.Valid() && t.nodes == old(t.nodes) - {z}
    ensures t.shape == Plug(k, Bin(s.l, y, s.c, s.r.r))
  {
    ghost var s' := Bin(s.l, y, s.c, s.r.r);
    t.Focus(k, s);
    t.Focus(InRight(k, s.l, z, s.c), s.r);
    TakeOver(t, z, y, t.nodes);
    PromotedNodes(k, s);
    TopPlug(k, s, s');
    t.nodes := t.nodes - {z};
    forall n | n in t.nodes
      ensures Read(n) == CellOf(Plug(k, s'), null, n)
    {
      PromotedCell(k, s, n);
    }
    t.shape := Plug(k, s');
  }

  /** y has been taken out from deeper inside the right subtree of z. */
  method Promote(t: RbTree, z: Node, y: Node, ghost k: Ctx, ghost s: Shape)
    requires t.Valid() && t.shape == Plug(k, s) && s.Bin? && s.n == z && s.l.Bin? && s.r.Bin?
    requires y !in t.nodes
    modifies t, t.nodes, y
    ensures t.Valid() && t.nodes == old(t.nodes) - {z} + {y}
    ensures t.shape == Plug(k, s.(n := y))
  {
    t.Focus(k, s);
    y.right := z.right;
    y.right.parent := y;
    TakeOver(t, z, y, t.nodes + {y});
    ReplacedNodes(k, s, y);
    TopPlug(k, s, s.(n := y));
    t.nodes := t.nodes - {z} + {y};
    forall n | n in t.nodes
      ensures Read(n) == CellOf(Plug(k, s.(n := y)), null, n)
    {
      ReplacedCell(k, s, y, n);
    }
    t.shape := Plug(k, s.(n := y));
  }

  /** The two-children case of rbtree_delete, with y the minimum of the right subtree. */
  method DetachSuccessor(t: RbTree, z: Node, y: Node, ghost k: Ctx, ghost s: Shape,
                         ghost km: Ctx, ghost sm: Shape)
      returns (x: Node?, c: Color, ghost kx: Ctx)
    requires t.Valid() && t.shape == Plug(k, s) && s.Bin? && s.n == z && s.l.Bin?
    requires s.r == Plug(km, sm) && AllLeft(km) && sm.Bin? && sm.l.Nil? && sm.n == y
    modifies t, t.nodes
    ensures t.Valid() && t.nodes == old(t.nodes) - {z}
    ensures t.shape == Plug(k, Bin(s.l, y, s.c, Plug(km, sm.r)))
    ensures kx == Compose(InRight(k, s.l, y, s.c), km)
    ensures t.shape == Plug(kx, sm.r) && x == Top(sm.r) && c == sm.c
  {
    ghost var kz := InRight(k, s.l, z, s.c);
    ghost var ky := Compose(kz, km);
    kx := Compose(InRight(k, s.l, y, s.c), km);
    PlugCompose(kz, km, sm);
    PlugCompose(kz, km, sm.r);
    PlugCompose(InRight(k, s.l, y, s.c), km, sm.r);
    ComposeAbove(kz, km);
    t.Focus(k, s);
    t.Focus(ky, sm);
    if !km.Hole? {
      CtxInside(km, sm);
      CtxInside(km, sm.r);
    }
    c := y.color;
    x := y.right;
    if y.parent == z {
      if x != null {
        t.Focus(InRight(ky, Nil, y, sm.c), sm.r);
        x.parent := y;
      }
      PromoteChild(t, z, y, k, s);
    } else {
      SpliceOut(t, y, x, ky, sm);
      Promote(t, z, y, k, Bin(s.l, z, s.c, Plug(km, sm.r)));
    }
  }

  /** rbtree_delete up to the decision whether to repair: z is out of the tree, and x is
      where a node of colour c is missing.  Putting the node back there would give a tree with the
      colours and the balance of the old one. */
  method Detach(t: RbTree, z: Node, ghost k: Ctx, ghost s: Shape)
      returns (x: Node?, c: Color, ghost kx: Ctx)
    requires t.Valid() && t.shape == Plug(k, s) && s.Bin? && s.n == z
    modifies t, t.nodes
    ensures t.Valid() && t.nodes == old(t.nodes) - {z} && kx == VictimCtx(k, s)
    ensures var v := Victim(s); t.shape == Plug(kx, OnlyChild(v)) && x == Top(OnlyChild(v)) && c == v.c
    ensures Tinted(Plug(kx, Victim(s))) <==> Tinted(Plug(k, s))
    ensures Balanced(Plug(kx, Victim(s))) <==> Balanced(Plug(k, s))
    ensures Inorder(t.shape) == (Before(k) + Inorder(s.l)) + (Inorder(s.r) + After(k))
  {
    var y := z;
    t.Focus(k, s);
    c := y.color;
    if z.left == null {
      InorderWithout(k, s, s.r);
      x := z.right;
      kx := k;
      SpliceOut(t, z, x, k, s);
    } else if z.right == null {
      InorderWithout(k, s, s.l);
      x := z.left;
      kx := k;
      SpliceOut(t, z, x, k, s);
    } else {
      ghost var km: Ctx, sm: Shape;
      y, km, sm := Minimum(t, z.right, InRight(k, s.l, z, s.c), s.r);
      Promoted(k, s, y, km, sm);
      PromotedOrder(k, s, y, km, sm);
      x, c, kx := DetachSuccessor(t, z, y, k, s, km, sm);
    }
  }

  /** The two-children case on shapes: where the successor was taken out, ... */
  lemma Promoted(k: Ctx, s: Shape, y: Node, km: Ctx, sm: Shape)
    requires s.Bin? && s.l.Bin? && s.r.Bin? && s.r == Plug(km, sm) && AllLeft(km) && km == Spine(Hole, s.r)
    requires sm.Bin? && sm.l.Nil? && sm.n == y
    ensures Victim(s) == sm && Compose(InRight(k, s.l, y, s.c), km) == VictimCtx(k, s)
    ensures Tinted(Plug(VictimCtx(k, s), sm)) <==> Tinted(Plug(k, s))
    ensures Balanced(Plug(VictimCtx(k, s), sm)) <==> Balanced(Plug(k, s))
  {
    AllLeftPlug(km, sm);
    ComposeSpine(InRight(k, s.l, y, s.c), Hole, s.r);
    AsGood(k, s, y, km, sm);
  }

  /** ... and that the order is kept. */
  lemma PromotedOrder(k: Ctx, s: Shape, y: Node, km: Ctx, sm: Shape)
    requires s.Bin? && s.l.Bin? && s.r == Plug(km, sm) && AllLeft(km) && sm.Bin? && sm.l.Nil? && sm.n == y
    ensures Inorder(Plug(k, Bin(s.l, y, s.c, Plug(km, sm.r)))) == (Before(k) + Inorder(s.l)) + (Inorder(s.r) + After(k))
  {
    SuccessorFirst(km, sm);
    Regroup(Inorder(s.l), [y], Inorder(Plug(km, sm.r)), []);
    InorderWithout(k, s, Bin(s.l, y, s.c, Plug(km, sm.r)));
  }

  /** rbtree_delete of any node of any tree.  It gets through exactly when `Survives` says so, and
      then the in-order sequence loses exactly z, and a rightly coloured tree stays rightly coloured.
      From a red-black tree it always gets through; the result is red-black if and only if the node
      taken out was red or had a child, or z was the only node: fixup_del is not called for a black
      node without children. */
  method Delete(t: RbTree, z: Node) returns (ok: bool, ghost k: Ctx, ghost s: Shape)
    requires t.Valid() && z in t.nodes
    modifies t, t.nodes
    ensures old(t.shape) == Plug(k, s) && s.Bin? && s.n == z && (ok <==> Survives(k, s))
    ensures ok ==> t.Valid() && t.nodes == old(t.nodes) - {z}
    ensures ok ==>
      var l, r := Before(k) + Inorder(s.l), Inorder(s.r) + After(k);
      old(Inorder(t.shape)) == l + [z] + r && Inorder(t.shape) == l + r
    ensures ok && old(Tinted(t.shape)) ==> Tinted(t.shape)
    ensures old(RedBlack(t.shape)) ==>
      var v := Victim(s);
      ok && (RedBlack(t.shape) <==> v.c.Red? || v.l.Bin? || v.r.Bin? || old(t.nodes) == {z})
  {
    k, s := Locate(Hole, t.shape, z);
    InorderMiddle(k, s);
    var x, c, kx := Detach(t, z, k, s);
    ghost var v := Victim(s);
    if Tinted(Plug(k, s)) {
      TakenOut(kx, v);
    }
    if RedBlack(Plug(k, s)) {
      OnlyChildIsRed(kx, v);
      if OnlyChild(v).Bin? {
        RepairDeficit(kx, OnlyChild(v));
      }
    }
    ok := true;
    if c.Black? && x != null {
      ok := FixupDel(t, x, kx, OnlyChild(v));
      if ok && Tinted(Plug(k, s)) {
        RepairThin(kx, OnlyChild(v));
      }
    } else if RedBlack(Plug(k, s)) && OnlyChild(v).Nil? {
      Unrepaired(kx, v);
      LastNode(t, kx, old(t.nodes), z);
    }
  }

  /** The tree is empty exactly when the only node is gone. */
  lemma LastNode(t: RbTree, kx: Ctx, nodes: set<Node>, z: Node)
    requires t.Valid() && t.shape == Plug(kx, Nil) && t.nodes == nodes - {z} && z in nodes
    ensures kx.Hole? <==> nodes == {z}
  {
    NodesPlug(kx, Nil);
    assert !kx.Hole? ==> kx.n in t.nodes;
    assert nodes == t.nodes + {z};
  }
}
