/** The value a red-black tree in the heap stands for.

A `Shape` is the tree of nodes as a value; a `Ctx` is a tree with one hole, read
from the hole upwards, which is how the fixup loops of rbtree.c see it through
the parent pointers.  The red-black conditions are split between a subtree and
its context, and the `...Plug` lemmas say that the split loses nothing.
*/
module RbShape {

  datatype Color = Red | Black

  class Node {
    var color: Color
    var left: Node?
    var right: Node?
    var parent: Node?

    constructor ()
    {
      color := Red;
      left, right, parent := null, null, null;
    }
  }

  datatype Shape = Nil | Bin(l: Shape, n: Node, c: Color, r: Shape)

  datatype Ctx =
    | Hole
    | InLeft(up: Ctx, n: Node, c: Color, r: Shape)
    | InRight(up: Ctx, l: Shape, n: Node, c: Color)

  ghost function Plug(k: Ctx, s: Shape): Shape
  {
    match k
    case Hole => s
    case InLeft(up, n, c, r) => Plug(up, Bin(s, n, c, r))
    case InRight(up, l, n, c) => Plug(up, Bin(l, n, c, s))
  }

  ghost function Top(s: Shape): Node?
  {
    if s.Nil? then null else s.n
  }

  /** The node just above the hole. */
  ghost function Above(k: Ctx): Node?
  {
    if k.Hole? then null else k.n
  }

  /** The subtree beside the hole. */
  ghost function Sibling(k: Ctx): Shape
    requires !k.Hole?
  {
    if k.InLeft? then k.r else k.l
  }

  ghost function Depth(k: Ctx): nat
  {
    if k.Hole? then 0 else 1 + Depth(k.up)
  }

  /** What is in the hole decides the root only when there is nothing above. */
  lemma {:induction false} TopPlug(k: Ctx, s: Shape, s': Shape)
    ensures k.Hole? ==> Top(Plug(k, s)) == Top(s)
    ensures !k.Hole? ==> Top(Plug(k, s)) == Top(Plug(k, s'))
    ensures !k.Hole? ==> Top(Plug(k, s)) in CtxNodes(k)
  {
    match k
    case Hole =>
    case InLeft(up, n, c, r) => TopPlug(up, Bin(s, n, c, r), Bin(s', n, c, r));
    case InRight(up, l, n, c) => TopPlug(up, Bin(l, n, c, s), Bin(l, n, c, s'));
  }

  // ---------- nodes and their order ----------

  ghost function Nodes(s: Shape): set<Node>
  {
    if s.Nil? then {} else Nodes(s.l) + {s.n} + Nodes(s.r)
  }

  ghost function CtxNodes(k: Ctx): set<Node>
  {
    match k
    case Hole => {}
    case InLeft(up, n, c, r) => CtxNodes(up) + {n} + Nodes(r)
    case InRight(up, l, n, c) => CtxNodes(up) + {n} + Nodes(l)
  }

  /** No node occurs twice. */
  ghost predicate Distinct(s: Shape)
  {
    s.Bin? ==>
      && s.n !in Nodes(s.l) && s.n !in Nodes(s.r) && Nodes(s.l) !! Nodes(s.r)
      && Distinct(s.l) && Distinct(s.r)
  }

  ghost predicate CtxDistinct(k: Ctx)
  {
    match k
    case Hole => true
    case InLeft(up, n, c, r) =>
      && n !in CtxNodes(up) && n !in Nodes(r) && CtxNodes(up) !! Nodes(r)
      && Distinct(r) && CtxDistinct(up)
    case InRight(up, l, n, c) =>
      && n !in CtxNodes(up) && n !in Nodes(l) && CtxNodes(up) !! Nodes(l)
      && Distinct(l) && CtxDistinct(up)
  }

  ghost function Inorder(s: Shape): seq<Node>
  {
    if s.Nil? then [] else Inorder(s.l) + [s.n] + Inorder(s.r)
  }

  ghost function Before(k: Ctx): seq<Node>
  {
    match k
    case Hole => []
    case InLeft(up, n, c, r) => Before(up)
    case InRight(up, l, n, c) => Before(up) + Inorder(l) + [n]
  }

  ghost function After(k: Ctx): seq<Node>
  {
    match k
    case Hole => []
    case InLeft(up, n, c, r) => [n] + Inorder(r) + After(up)
    case InRight(up, l, n, c) => After(up)
  }

  lemma {:induction false} NodesPlug(k: Ctx, s: Shape)
    ensures Nodes(Plug(k, s)) == CtxNodes(k) + Nodes(s)
  {
    match k
    case Hole =>
    case InLeft(up, n, c, r) => NodesPlug(up, Bin(s, n, c, r));
    case InRight(up, l, n, c) => NodesPlug(up, Bin(l, n, c, s));
  }

  lemma {:induction false} DistinctPlug(k: Ctx, s: Shape)
    ensures Distinct(Plug(k, s)) <==> Distinct(s) && CtxDistinct(k) && CtxNodes(k) !! Nodes(s)
  {
    match k
    case Hole =>
    case InLeft(up, n, c, r) => DistinctPlug(up, Bin(s, n, c, r));
    case InRight(up, l, n, c) => DistinctPlug(up, Bin(l, n, c, s));
  }

  lemma Regroup<T>(a: seq<T>, b: seq<T>, c: seq<T>, d: seq<T>)
    ensures a + b + (c + d) == a + (b + c) + d
    ensures a + (b + c) == a + b + c
    ensures [] + a == a && a + [] == a
  {}

  lemma {:induction false} InorderPlug(k: Ctx, s: Shape)
    ensures Inorder(Plug(k, s)) == Before(k) + Inorder(s) + After(k)
  {
    match k
    case Hole =>
    case InLeft(up, n, c, r) =>
      InorderPlug(up, Bin(s, n, c, r));
      Regroup(Before(up), Inorder(s), [n] + Inorder(r), After(up));
      Regroup([], Inorder(s), [n], Inorder(r));
    case InRight(up, l, n, c) =>
      InorderPlug(up, Bin(l, n, c, s));
      Regroup(Before(up), Inorder(l) + [n], Inorder(s), After(up));
      Regroup([], Before(up), Inorder(l), [n]);
  }

  // ---------- the fields every node must hold ----------

  datatype Cell = Cell(color: Color, left: Node?, right: Node?, parent: Node?)

  /** The contents of node n of s when p is above the top of s. */
  ghost function CellOf(s: Shape, p: Node?, n: Node): Cell
    requires n in Nodes(s)
  {
    if n == s.n then Cell(s.c, Top(s.l), Top(s.r), p)
    else if n in Nodes(s.l) then CellOf(s.l, s.n, n)
    else CellOf(s.r, s.n, n)
  }

  /** The contents of node n of k when x is in the hole. */
  ghost function CtxCellOf(k: Ctx, x: Node?, n: Node): Cell
    requires n in CtxNodes(k)
  {
    match k
    case InLeft(up, m, c, r) =>
      if n == m then Cell(c, x, Top(r), Above(up))
      else if n in Nodes(r) then CellOf(r, m, n)
      else CtxCellOf(up, m, n)
    case InRight(up, l, m, c) =>
      if n == m then Cell(c, Top(l), x, Above(up))
      else if n in Nodes(l) then CellOf(l, m, n)
      else CtxCellOf(up, m, n)
  }

  lemma {:induction false} CellPlug(k: Ctx, s: Shape, n: Node)
    requires Distinct(Plug(k, s)) && n in Nodes(Plug(k, s))
    ensures n in Nodes(s) || n in CtxNodes(k)
    ensures CellOf(Plug(k, s), null, n) ==
            if n in Nodes(s) then CellOf(s, Above(k), n) else CtxCellOf(k, Top(s), n)
  {
    DistinctPlug(k, s);
    NodesPlug(k, s);
    match k
    case Hole =>
    case InLeft(up, m, c, r) => CellPlug(up, Bin(s, m, c, r), n);
    case InRight(up, l, m, c) => CellPlug(up, Bin(l, m, c, s), n);
  }

  /** Only the node above the hole sees what is in it. */
  ghost function Rehung(c: Cell, x: Node?, y: Node?): Cell
  {
    if c.left == x then c.(left := y) else c.(right := y)
  }

  lemma RehungCell(k: Ctx, x: Node, y: Node?, n: Node)
    requires CtxDistinct(k) && x !in CtxNodes(k) && n in CtxNodes(k)
    ensures CtxCellOf(k, y, n) ==
            if n == Above(k) then Rehung(CtxCellOf(k, x, n), x, y) else CtxCellOf(k, x, n)
  {}

  /** Only the top of a subtree sees what is above it. */
  lemma AdoptedCell(s: Shape, p: Node?, q: Node?, n: Node)
    requires n in Nodes(s)
    ensures CellOf(s, q, n) ==
            if n == Top(s) then CellOf(s, p, n).(parent := q) else CellOf(s, p, n)
  {}

  ghost function LeftRotated(a: Shape, x: Node, cx: Color, sy: Shape): Shape
    requires sy.Bin?
  {
    Bin(Bin(a, x, cx, sy.l), sy.n, sy.c, sy.r)
  }

  ghost function RightRotated(sx: Shape, y: Node, cy: Color, b: Shape): Shape
    requires sx.Bin?
  {
    Bin(sx.l, sx.n, sx.c, Bin(sx.r, y, cy, b))
  }

  lemma RotatedNodes(k: Ctx, a: Shape, x: Node, cx: Color, sy: Shape)
    requires sy.Bin?
    ensures var s, s' := Plug(k, Bin(a, x, cx, sy)), Plug(k, LeftRotated(a, x, cx, sy));
      (Distinct(s) <==> Distinct(s')) && Nodes(s) == Nodes(s')
  {
    var s, s' := Bin(a, x, cx, sy), LeftRotated(a, x, cx, sy);
    assert Distinct(sy) <==>
      && sy.n !in Nodes(sy.l) && sy.n !in Nodes(sy.r) && Nodes(sy.l) !! Nodes(sy.r)
      && Distinct(sy.l) && Distinct(sy.r);
    assert Distinct(s'.l) <==>
      && x !in Nodes(a) && x !in Nodes(sy.l) && Nodes(a) !! Nodes(sy.l)
      && Distinct(a) && Distinct(sy.l);
    assert Nodes(s) == Nodes(s') && Nodes(sy) == Nodes(sy.l) + {sy.n} + Nodes(sy.r);
    assert Distinct(s) <==>
      && x !in Nodes(a) && x !in Nodes(sy) && Nodes(a) !! Nodes(sy)
      && Distinct(a) && Distinct(sy);
    assert Distinct(s') <==>
      && sy.n !in Nodes(s'.l) && sy.n !in Nodes(sy.r) && Nodes(s'.l) !! Nodes(sy.r)
      && Distinct(s'.l) && Distinct(sy.r);
    DistinctPlug(k, s);
    DistinctPlug(k, s');
    NodesPlug(k, s);
    NodesPlug(k, s');
  }

  lemma RotatedInorder(k: Ctx, a: Shape, x: Node, cx: Color, sy: Shape)
    requires sy.Bin?
    ensures Inorder(Plug(k, Bin(a, x, cx, sy))) == Inorder(Plug(k, LeftRotated(a, x, cx, sy)))
  {
    var s, s' := Bin(a, x, cx, sy), LeftRotated(a, x, cx, sy);
    assert Inorder(s) == Inorder(s') by {
      Regroup(Inorder(a) + [x], Inorder(sy.l), [sy.n], Inorder(sy.r));
      Regroup(Inorder(a) + [x], Inorder(sy.l) + [sy.n], Inorder(sy.r), []);
    }
    InorderPlug(k, s);
    InorderPlug(k, s');
  }

  /** The writes of rotate_left, seen from one node. */
  lemma LeftRotatedCell(k: Ctx, a: Shape, x: Node, cx: Color, sy: Shape, n: Node)
    requires sy.Bin? && Distinct(Plug(k, Bin(a, x, cx, sy)))
    requires n in Nodes(Plug(k, Bin(a, x, cx, sy)))
    ensures n in Nodes(Plug(k, LeftRotated(a, x, cx, sy)))
    ensures
      var c := CellOf(Plug(k, Bin(a, x, cx, sy)), null, n);
      CellOf(Plug(k, LeftRotated(a, x, cx, sy)), null, n) ==
        if n == x then c.(right := Top(sy.l), parent := sy.n)
        else if n == sy.n then c.(left := x, parent := Above(k))
        else if n == Top(sy.l) then c.(parent := x)
        else if n == Above(k) then Rehung(c, x, sy.n)
        else c
  {
    var s, s' := Bin(a, x, cx, sy), LeftRotated(a, x, cx, sy);
    RotatedNodes(k, a, x, cx, sy);
    CellPlug(k, s, n);
    CellPlug(k, s', n);
    DistinctPlug(k, s);
    NodesPlug(k, s);
    if n in Nodes(s) {
      if n in Nodes(sy.l) {
        AdoptedCell(sy.l, sy.n, x, n);
      }
    } else {
      RehungCell(k, x, sy.n, n);
    }
  }

  /** The writes of rotate_right, seen from one node. */
  lemma RightRotatedCell(k: Ctx, sx: Shape, y: Node, cy: Color, b: Shape, n: Node)
    requires sx.Bin? && Distinct(Plug(k, Bin(sx, y, cy, b)))
    requires n in Nodes(Plug(k, Bin(sx, y, cy, b)))
    ensures n in Nodes(Plug(k, RightRotated(sx, y, cy, b)))
    ensures
      var c := CellOf(Plug(k, Bin(sx, y, cy, b)), null, n);
      CellOf(Plug(k, RightRotated(sx, y, cy, b)), null, n) ==
        if n == y then c.(left := Top(sx.r), parent := sx.n)
        else if n == sx.n then c.(right := y, parent := Above(k))
        else if n == Top(sx.r) then c.(parent := y)
        else if n == Above(k) then Rehung(c, y, sx.n)
        else c
  {
    var s, s' := Bin(sx, y, cy, b), RightRotated(sx, y, cy, b);
    RotatedNodes(k, sx.l, sx.n, sx.c, Bin(sx.r, y, cy, b));
    CellPlug(k, s, n);
    CellPlug(k, s', n);
    DistinctPlug(k, s);
    NodesPlug(k, s);
    if n in Nodes(s) {
      if n in Nodes(sx.r) {
        AdoptedCell(sx.r, sx.n, y, n);
      }
    } else {
      RehungCell(k, y, sx.n, n);
    }
  }

  /** `x->color = c`, seen from one node. */
  lemma PaintedCell(k: Ctx, s: Shape, c: Color, n: Node)
    requires s.Bin? && Distinct(Plug(k, s)) && n in Nodes(Plug(k, s))
    ensures Distinct(Plug(k, s.(c := c))) && Nodes(Plug(k, s.(c := c))) == Nodes(Plug(k, s))
    ensures CellOf(Plug(k, s.(c := c)), null, n) ==
            var old_ := CellOf(Plug(k, s), null, n); if n == s.n then old_.(color := c) else old_
  {
    var s' := s.(c := c);
    assert Nodes(s) == Nodes(s');
    DistinctPlug(k, s);
    DistinctPlug(k, s');
    NodesPlug(k, s);
    NodesPlug(k, s');
    CellPlug(k, s, n);
    CellPlug(k, s', n);
  }

  /** What is left below when a node with at most one child is taken out. */
  ghost function OnlyChild(s: Shape): Shape
    requires s.Bin? && (s.l.Nil? || s.r.Nil?)
  {
    if s.l.Nil? then s.r else s.l
  }

  /** Taking out s.n: its child moves up, seen from any other node. */
  lemma SplicedCell(k: Ctx, s: Shape, n: Node)
    requires s.Bin? && (s.l.Nil? || s.r.Nil?) && Distinct(Plug(k, s))
    requires n in Nodes(Plug(k, s)) - {s.n}
    ensures Distinct(Plug(k, OnlyChild(s)))
    ensures Nodes(Plug(k, OnlyChild(s))) == Nodes(Plug(k, s)) - {s.n}
    ensures CellOf(Plug(k, OnlyChild(s)), null, n) ==
      var c := CellOf(Plug(k, s), null, n);
      if n == Top(OnlyChild(s)) then c.(parent := Above(k))
      else if n == Above(k) then Rehung(c, s.n, Top(OnlyChild(s)))
      else c
  {
    SplicedNodes(k, s);
    var x := OnlyChild(s);
    CellPlug(k, s, n);
    CellPlug(k, x, n);
    DistinctPlug(k, s);
    NodesPlug(k, s);
    if n in Nodes(x) {
      AdoptedCell(x, s.n, Above(k), n);
    } else {
      RehungCell(k, s.n, Top(x), n);
    }
  }

  lemma SplicedNodes(k: Ctx, s: Shape)
    requires s.Bin? && (s.l.Nil? || s.r.Nil?) && Distinct(Plug(k, s))
    ensures Distinct(Plug(k, OnlyChild(s)))
    ensures Nodes(Plug(k, OnlyChild(s))) == Nodes(Plug(k, s)) - {s.n}
  {
    DistinctPlug(k, s);
    DistinctPlug(k, OnlyChild(s));
    NodesPlug(k, s);
    NodesPlug(k, OnlyChild(s));
  }

  lemma ReplacedNodes(k: Ctx, s: Shape, y: Node)
    requires s.Bin? && Distinct(Plug(k, s)) && y !in Nodes(Plug(k, s))
    ensures Distinct(Plug(k, s.(n := y)))
    ensures Nodes(Plug(k, s.(n := y))) == Nodes(Plug(k, s)) - {s.n} + {y}
  {
    DistinctPlug(k, s);
    NodesPlug(k, s);
    DistinctPlug(k, s.(n := y));
    NodesPlug(k, s.(n := y));
  }

  /** A fresh y standing in for s.n: its neighbours point to y instead. */
  lemma ReplacedCell(k: Ctx, s: Shape, y: Node, n: Node)
    requires s.Bin? && Distinct(Plug(k, s)) && y !in Nodes(Plug(k, s))
    requires n == y || n in Nodes(Plug(k, s)) - {s.n}
    ensures n in Nodes(Plug(k, s.(n := y)))
    ensures n == y ==>
      CellOf(Plug(k, s.(n := y)), null, n) == CellOf(s, Above(k), s.n)
    ensures n != y ==>
      CellOf(Plug(k, s.(n := y)), null, n) ==
        var c := CellOf(Plug(k, s), null, n);
        if n == Top(s.l) || n == Top(s.r) then c.(parent := y)
        else if n == Above(k) then Rehung(c, s.n, y)
        else c
  {
    ReplacedNodes(k, s, y);
    DistinctPlug(k, s);
    NodesPlug(k, s);
    CellPlug(k, s.(n := y), n);
    if n != y {
      CellPlug(k, s, n);
      if n in Nodes(s.l) {
        AdoptedCell(s.l, s.n, y, n);
      } else if n in Nodes(s.r) {
        AdoptedCell(s.r, s.n, y, n);
      } else {
        RehungCell(k, s.n, y, n);
      }
    }
  }

  /** s.r.n, with no left child, standing in for its parent s.n. */
  lemma PromotedCell(k: Ctx, s: Shape, n: Node)
    requires s.Bin? && s.r.Bin? && s.r.l.Nil? && Distinct(Plug(k, s))
    requires n in Nodes(Plug(k, s)) - {s.n}
    ensures n in Nodes(Plug(k, Bin(s.l, s.r.n, s.c, s.r.r)))
    ensures CellOf(Plug(k, Bin(s.l, s.r.n, s.c, s.r.r)), null, n) ==
      var c := CellOf(Plug(k, s), null, n);
      if n == s.r.n then Cell(s.c, Top(s.l), c.right, Above(k))
      else if n == Top(s.l) then c.(parent := s.r.n)
      else if n == Above(k) then Rehung(c, s.n, s.r.n)
      else c
  {
    var s' := Bin(s.l, s.r.n, s.c, s.r.r);
    PromotedNodes(k, s);
    DistinctPlug(k, s);
    NodesPlug(k, s);
    CellPlug(k, s, n);
    CellPlug(k, s', n);
    if n in Nodes(s.l) {
      AdoptedCell(s.l, s.n, s.r.n, n);
    } else if n in CtxNodes(k) {
      RehungCell(k, s.n, s.r.n, n);
    }
  }

  lemma PromotedNodes(k: Ctx, s: Shape)
    requires s.Bin? && s.r.Bin? && s.r.l.Nil? && Distinct(Plug(k, s))
    ensures Distinct(Plug(k, Bin(s.l, s.r.n, s.c, s.r.r)))
    ensures Nodes(Plug(k, Bin(s.l, s.r.n, s.c, s.r.r))) == Nodes(Plug(k, s)) - {s.n}
  {
    var s' := Bin(s.l, s.r.n, s.c, s.r.r);
    DistinctPlug(k, s);
    NodesPlug(k, s);
    assert Distinct(s.r) && Distinct(s') && Nodes(s') == Nodes(s) - {s.n};
    DistinctPlug(k, s');
    NodesPlug(k, s');
  }

  /** A new leaf in an empty slot. */
  lemma LeafCell(k: Ctx, y: Node, n: Node)
    requires Distinct(Plug(k, Nil)) && y !in Nodes(Plug(k, Nil))
    requires n == y || n in Nodes(Plug(k, Nil))
    ensures Distinct(Plug(k, Bin(Nil, y, Red, Nil)))
    ensures Nodes(Plug(k, Bin(Nil, y, Red, Nil))) == Nodes(Plug(k, Nil)) + {y}
    ensures n == y ==>
      CellOf(Plug(k, Bin(Nil, y, Red, Nil)), null, n) == Cell(Red, null, null, Above(k))
    ensures n != y ==>
      CellOf(Plug(k, Bin(Nil, y, Red, Nil)), null, n) ==
        var c := CellOf(Plug(k, Nil), null, n);
        if n == Above(k) then (if k.InLeft? then c.(left := y) else c.(right := y)) else c
  {
    var s := Bin(Nil, y, Red, Nil);
    DistinctPlug(k, Nil);
    DistinctPlug(k, s);
    NodesPlug(k, Nil);
    NodesPlug(k, s);
    CellPlug(k, s, n);
    if n != y {
      CellPlug(k, Nil, n);
    }
  }

  // ---------- the red-black conditions ----------

  ghost predicate IsRed(s: Shape)
  {
    s.Bin? && s.c.Red?
  }

  ghost predicate NoRedRed(s: Shape)
  {
    s.Bin? ==>
      && (s.c.Red? ==> !IsRed(s.l) && !IsRed(s.r))
      && NoRedRed(s.l) && NoRedRed(s.r)
  }

  ghost function Weight(c: Color): nat
  {
    if c.Black? then 1 else 0
  }

  /** Black nodes on the leftmost path; on every path when `Balanced` holds. */
  ghost function BlackHeight(s: Shape): nat
  {
    if s.Nil? then 0 else BlackHeight(s.l) + Weight(s.c)
  }

  ghost predicate Balanced(s: Shape)
  {
    s.Bin? ==> BlackHeight(s.l) == BlackHeight(s.r) && Balanced(s.l) && Balanced(s.r)
  }

  /** A black root and no red node below a red one. */
  ghost predicate Tinted(s: Shape)
  {
    !IsRed(s) && NoRedRed(s)
  }

  ghost predicate RedBlack(s: Shape)
  {
    Tinted(s) && Balanced(s)
  }

  /** The context is free of red-red edges around a hole that is red or not. */
  ghost predicate CtxNoRedRed(k: Ctx, red: bool)
  {
    !k.Hole? ==>
      && (k.c.Red? ==> !red && !IsRed(Sibling(k)))
      && NoRedRed(Sibling(k)) && CtxNoRedRed(k.up, k.c.Red?)
  }

  /** The context is balanced around a subtree of black height h. */
  ghost predicate CtxBalanced(k: Ctx, h: nat)
  {
    !k.Hole? ==>
      && Balanced(Sibling(k)) && BlackHeight(Sibling(k)) == h
      && CtxBalanced(k.up, h + Weight(k.c))
  }

  ghost predicate CtxRootBlack(k: Ctx)
  {
    k.Hole? || if k.up.Hole? then k.c.Black? else CtxRootBlack(k.up)
  }

  lemma {:induction false} NoRedRedPlug(k: Ctx, s: Shape)
    ensures NoRedRed(Plug(k, s)) <==> NoRedRed(s) && CtxNoRedRed(k, IsRed(s))
  {
    match k
    case Hole =>
    case InLeft(up, n, c, r) => NoRedRedPlug(up, Bin(s, n, c, r));
    case InRight(up, l, n, c) => NoRedRedPlug(up, Bin(l, n, c, s));
  }

  lemma {:induction false} BalancedPlug(k: Ctx, s: Shape)
    ensures Balanced(Plug(k, s)) <==> Balanced(s) && CtxBalanced(k, BlackHeight(s))
  {
    match k
    case Hole =>
    case InLeft(up, n, c, r) => BalancedPlug(up, Bin(s, n, c, r));
    case InRight(up, l, n, c) => BalancedPlug(up, Bin(l, n, c, s));
  }

  lemma {:induction false} RootBlackPlug(k: Ctx, s: Shape)
    ensures !IsRed(Plug(k, s)) <==> if k.Hole? then !IsRed(s) else CtxRootBlack(k)
  {
    match k
    case Hole =>
    case InLeft(up, n, c, r) => RootBlackPlug(up, Bin(s, n, c, r));
    case InRight(up, l, n, c) => RootBlackPlug(up, Bin(l, n, c, s));
  }

  lemma TintedPlug(k: Ctx, s: Shape)
    ensures Tinted(Plug(k, s)) <==>
      NoRedRed(s) && CtxNoRedRed(k, IsRed(s)) && (if k.Hole? then !IsRed(s) else CtxRootBlack(k))
  {
    NoRedRedPlug(k, s);
    RootBlackPlug(k, s);
  }

  /** The red-black conditions of a whole tree, read at any position in it. */
  lemma RedBlackPlug(k: Ctx, s: Shape)
    ensures RedBlack(Plug(k, s)) <==>
      && NoRedRed(s) && CtxNoRedRed(k, IsRed(s))
      && Balanced(s) && CtxBalanced(k, BlackHeight(s))
      && (if k.Hole? then !IsRed(s) else CtxRootBlack(k))
  {
    TintedPlug(k, s);
    BalancedPlug(k, s);
  }

  /** s is red and may hang below a red node; otherwise the colours are as they should be. */
  ghost predicate RedAt(k: Ctx, s: Shape)
  {
    IsRed(s) && NoRedRed(s) && CtxNoRedRed(k, false) && CtxRootBlack(k)
  }

  /** If the first tree is balanced, so is the second. */
  ghost predicate KeepsBalance(s: Shape, s': Shape)
  {
    Balanced(s) ==> Balanced(s')
  }

  /** Linking a red leaf leaves at most one red-red edge and nothing else to repair. */
  lemma NewLeaf(k: Ctx, n: Node)
    requires Tinted(Plug(k, Nil))
    ensures RedAt(k, Bin(Nil, n, Red, Nil)) && KeepsBalance(Plug(k, Nil), Plug(k, Bin(Nil, n, Red, Nil)))
    ensures Inorder(Plug(k, Nil)) == Before(k) + After(k)
    ensures Inorder(Plug(k, Bin(Nil, n, Red, Nil))) == Before(k) + [n] + After(k)
  {
    TintedPlug(k, Nil);
    BalancedPlug(k, Nil);
    BalancedPlug(k, Bin(Nil, n, Red, Nil));
    InorderPlug(k, Nil);
    InorderPlug(k, Bin(Nil, n, Red, Nil));
    assert Inorder(Bin(Nil, n, Red, Nil)) == [n];
  }

  /** A red node below a red node has a black grandparent. */
  lemma Grandparent(k: Ctx, s: Shape)
    requires RedAt(k, s) && !k.Hole? && k.c.Red?
    ensures !k.up.Hole? && k.up.c.Black?
  {
    assert CtxNoRedRed(k.up, true);
  }

  /** fixup is done when the node above is black or there is none. */
  lemma FixupDone(k: Ctx, s: Shape)
    requires RedAt(k, s) && (k.Hole? || k.c.Black?)
    ensures var t := if k.Hole? then s.(c := Black) else Plug(k, s);
      Tinted(t) && KeepsBalance(Plug(k, s), t)
  {
    if k.Hole? {
      assert NoRedRed(s.l) && NoRedRed(s.r) && NoRedRed(s.(c := Black));
    } else {
      TintedPlug(k, s);
      assert CtxNoRedRed(k, true);
    }
  }

  /** The subtree at the node above the hole: one step of `Plug`. */
  ghost function Around(k: Ctx, s: Shape): Shape
    requires !k.Hole?
  {
    match k
    case InLeft(up, n, c, r) => Bin(s, n, c, r)
    case InRight(up, l, n, c) => Bin(l, n, c, s)
  }

  ghost function Blackened(s: Shape): Shape
  {
    if s.Nil? then Nil else s.(c := Black)
  }

  /** Two subtrees that are as good as each other for the balance of the tree around them. */
  lemma SameHeight(k: Ctx, s: Shape, s': Shape)
    requires Balanced(s) ==> Balanced(s') && BlackHeight(s') == BlackHeight(s)
    ensures KeepsBalance(Plug(k, s), Plug(k, s'))
  {
    BalancedPlug(k, s);
    BalancedPlug(k, s');
  }

  lemma TwoPlugs(k: Ctx, s: Shape)
    requires !k.Hole? && !k.up.Hole?
    ensures Plug(k, s) == Plug(k.up.up, Around(k.up, Around(k, s)))
  {
    assert Plug(k, s) == Plug(k.up, Around(k, s));
  }

  lemma RaisedHeight(s: Shape)
    requires IsRed(s)
    ensures Balanced(s) <==> Balanced(Blackened(s))
    ensures BlackHeight(Blackened(s)) == BlackHeight(s) + 1
  {}

  lemma BlackenedOk(s: Shape)
    requires IsRed(s) && NoRedRed(s) && Balanced(s)
    ensures NoRedRed(Blackened(s)) && Balanced(Blackened(s))
    ensures BlackHeight(Blackened(s)) == BlackHeight(s) + 1
  {}

  /** A red uncle: the two reds turn black and the problem moves up. */
  lemma RecolorStep(k: Ctx, s: Shape)
    requires RedAt(k, s) && !k.Hole? && k.c.Red? && !k.up.Hole? && k.up.c.Black? && IsRed(Sibling(k.up))
    ensures
      var sp, su := Blackened(Around(k, s)), Blackened(Sibling(k.up));
      var s' := if k.up.InLeft? then Bin(sp, k.up.n, Red, su) else Bin(su, k.up.n, Red, sp);
      RedAt(k.up.up, s') && KeepsBalance(Plug(k, s), Plug(k.up.up, s'))
  {
    var sp, su := Blackened(Around(k, s)), Blackened(Sibling(k.up));
    var s' := if k.up.InLeft? then Bin(sp, k.up.n, Red, su) else Bin(su, k.up.n, Red, sp);
    assert CtxNoRedRed(k.up, true) && CtxRootBlack(k.up);
    assert NoRedRed(su) && NoRedRed(sp);
    TwoPlugs(k, s);
    RaisedHeight(Around(k, s));
    RaisedHeight(Sibling(k.up));
    SameHeight(k.up.up, Around(k.up, Around(k, s)), s');
  }

  /** A black uncle, z on the outer side: g turns red below p, which turns black. */
  lemma RotateStep(k: Ctx, s: Shape)
    requires RedAt(k, s) && !k.Hole? && k.c.Red? && !k.up.Hole? && k.up.c.Black?
    requires !IsRed(Sibling(k.up)) && k.InLeft? == k.up.InLeft?
    ensures
      var k' := if k.InLeft? then InLeft(k.up.up, k.n, Black, Bin(k.r, k.up.n, Red, k.up.r))
                else InRight(k.up.up, Bin(k.up.l, k.up.n, Red, k.l), k.n, Black);
      RedAt(k', s) && KeepsBalance(Plug(k, s), Plug(k', s))
  {
    var k' := if k.InLeft? then InLeft(k.up.up, k.n, Black, Bin(k.r, k.up.n, Red, k.up.r))
              else InRight(k.up.up, Bin(k.up.l, k.up.n, Red, k.l), k.n, Black);
    assert CtxNoRedRed(k.up, true) && CtxRootBlack(k.up);
    TwoPlugs(k, s);
    assert Balanced(Around(k.up, Around(k, s))) ==> Balanced(Around(k, s)) && Balanced(Sibling(k'));
    SameHeight(k.up.up, Around(k.up, Around(k, s)), Around(k', s));
  }

  /** z on the inner side: rotating at p moves the red-red pair to the outer side. */
  lemma StraightenStep(k: Ctx, s: Shape)
    requires RedAt(k, s) && !k.Hole? && k.c.Red? && !k.up.Hole? && k.InLeft? != k.up.InLeft?
    ensures
      var k' := if k.InRight? then InLeft(k.up, s.n, Red, s.r) else InRight(k.up, s.l, s.n, Red);
      var s' := if k.InRight? then Bin(k.l, k.n, Red, s.l) else Bin(s.r, k.n, Red, k.r);
      RedAt(k', s') && KeepsBalance(Plug(k, s), Plug(k', s'))
  {
    var k' := if k.InRight? then InLeft(k.up, s.n, Red, s.r) else InRight(k.up, s.l, s.n, Red);
    var s' := if k.InRight? then Bin(k.l, k.n, Red, s.l) else Bin(s.r, k.n, Red, k.r);
    assert Balanced(Around(k, s)) ==> Balanced(s) && Balanced(s');
    SameHeight(k.up, Around(k, s), Around(k', s'));
  }
}
