/** What fixup_del repairs: a subtree with one black node too few.

`DeficitAt(k, s)` is the state in which the loop of fixup_del finds the tree; the
lemmas are its cases.  The file also says what rbtree_delete leaves behind when
it does not call fixup_del.
*/
module RbDeficit {
  import opened RbShape

  /** Every path through s is one black short; s itself may be red, even below red. */
  ghost predicate DeficitAt(k: Ctx, s: Shape)
  {
    && s.Bin? && NoRedRed(Blackened(s)) && CtxNoRedRed(k, false)
    && Balanced(s) && CtxBalanced(k, BlackHeight(s) + 1) && CtxRootBlack(k)
  }

  /** Painting a red s, or reaching the root, ends the loop. */
  lemma DeficitDone(k: Ctx, s: Shape)
    requires DeficitAt(k, s) && (k.Hole? || s.c.Red?)
    ensures RedBlack(Plug(k, Blackened(s)))
  {
    RedBlackPlug(k, Blackened(s));
    assert Balanced(Blackened(s));
  }

  /** The sibling of a deficient black node is a real node. */
  lemma SiblingExists(k: Ctx, s: Shape)
    requires DeficitAt(k, s) && !k.Hole?
    ensures Sibling(k).Bin? && NoRedRed(Sibling(k)) && Balanced(Sibling(k))
    ensures BlackHeight(Sibling(k)) == BlackHeight(s) + 1
  {}

  /** A red sibling w: after the rotation the deficient node has a black one. */
  lemma RedSibling(k: Ctx, s: Shape)
    requires DeficitAt(k, s) && !k.Hole? && IsRed(Sibling(k))
    ensures k.c.Black?
    ensures
      var w := Sibling(k);
      var k' := if k.InLeft? then InLeft(InLeft(k.up, w.n, Black, w.r), k.n, Red, w.l)
                else InRight(InRight(k.up, w.l, w.n, Black), w.r, k.n, Red);
      DeficitAt(k', s) && !IsRed(Sibling(k'))
  {
    var w := Sibling(k);
    assert CtxNoRedRed(k.up, k.c.Red?);
    assert NoRedRed(w) && Balanced(w);
  }

  /** A black sibling with black children turns red; the deficit moves up. */
  lemma BlackNephews(k: Ctx, s: Shape)
    requires DeficitAt(k, s) && !k.Hole? && s.c.Black? && Sibling(k).Bin? && !IsRed(Sibling(k))
    requires !IsRed(Sibling(k).l) && !IsRed(Sibling(k).r)
    ensures
      var w := Sibling(k).(c := Red);
      DeficitAt(k.up, if k.InLeft? then Bin(s, k.n, k.c, w) else Bin(w, k.n, k.c, s))
  {
    var w := Sibling(k).(c := Red);
    assert NoRedRed(Sibling(k)) && Balanced(Sibling(k));
    assert NoRedRed(w) && Balanced(w) && BlackHeight(w) == BlackHeight(s);
    assert CtxNoRedRed(k.up, k.c.Red?);
    var p := Blackened(if k.InLeft? then Bin(s, k.n, k.c, w) else Bin(w, k.n, k.c, s));
    assert NoRedRed(p);
  }

  /** The near nephew red, the far one black: a rotation at w makes the far one red. */
  lemma NearNephew(k: Ctx, s: Shape)
    requires DeficitAt(k, s) && !k.Hole? && s.c.Black? && Sibling(k).Bin? && !IsRed(Sibling(k))
    requires var w := Sibling(k);
      if k.InLeft? then IsRed(w.l) && !IsRed(w.r) else IsRed(w.r) && !IsRed(w.l)
    ensures
      var w := Sibling(k);
      var w' := if k.InLeft? then Bin(w.l.l, w.l.n, Black, Bin(w.l.r, w.n, Red, w.r))
                else Bin(Bin(w.l, w.n, Red, w.r.l), w.r.n, Black, w.r.r);
      DeficitAt(if k.InLeft? then InLeft(k.up, k.n, k.c, w') else InRight(k.up, w', k.n, k.c), s)
  {
    var w := Sibling(k);
    assert NoRedRed(w) && Balanced(w);
    var x := if k.InLeft? then w.l else w.r;
    assert NoRedRed(x) && Balanced(x);
    var w' := if k.InLeft? then Bin(w.l.l, w.l.n, Black, Bin(w.l.r, w.n, Red, w.r))
              else Bin(Bin(w.l, w.n, Red, w.r.l), w.r.n, Black, w.r.r);
    assert NoRedRed(if k.InLeft? then w'.r else w'.l) && Balanced(if k.InLeft? then w'.r else w'.l);
    assert NoRedRed(w') && Balanced(w') && BlackHeight(w') == BlackHeight(w);
  }

  /** The far nephew red: one rotation at p pays the deficit. */
  lemma FarNephew(k: Ctx, s: Shape)
    requires DeficitAt(k, s) && !k.Hole? && s.c.Black? && Sibling(k).Bin? && !IsRed(Sibling(k))
    requires IsRed(if k.InLeft? then Sibling(k).r else Sibling(k).l)
    ensures
      var w := Sibling(k);
      RedBlack(Plug(k.up,
        if k.InLeft? then Bin(Bin(s, k.n, Black, w.l), w.n, k.c, Blackened(w.r))
        else Bin(Blackened(w.l), w.n, k.c, Bin(w.r, k.n, Black, s))))
  {
    var w := Sibling(k);
    assert NoRedRed(w) && Balanced(w);
    var far := if k.InLeft? then w.r else w.l;
    BlackenedOk(far);
    var t := if k.InLeft? then Bin(Bin(s, k.n, Black, w.l), w.n, k.c, Blackened(w.r))
             else Bin(Blackened(w.l), w.n, k.c, Bin(w.r, k.n, Black, s));
    var near := if k.InLeft? then t.l else t.r;
    assert NoRedRed(near) && Balanced(near);
    assert NoRedRed(t) && Balanced(t) && BlackHeight(t) == BlackHeight(s) + 1 + Weight(k.c);
    RedBlackPlug(k.up, t);
  }

  // ---------- the loop of fixup_del on any tree ----------

  datatype Place = Gone | At(k: Ctx, s: Shape)

  /** The context after a red sibling has been rotated away. */
  ghost function Lowered(k: Ctx): Ctx
    requires !k.Hole? && Sibling(k).Bin?
  {
    var w := Sibling(k);
    if k.InLeft? then InLeft(InLeft(k.up, w.n, Black, w.r), k.n, Red, w.l)
    else InRight(InRight(k.up, w.l, w.n, Black), w.r, k.n, Red)
  }

  /** The context after a red near nephew has been turned into a red far one. */
  ghost function Turned(k: Ctx): Ctx
    requires !k.Hole? && Sibling(k).Bin? && (if k.InLeft? then Sibling(k).l.Bin? else Sibling(k).r.Bin?)
  {
    var w := Sibling(k);
    if k.InLeft? then InLeft(k.up, k.n, k.c, Bin(w.l.l, w.l.n, Black, Bin(w.l.r, w.n, Red, w.r)))
    else InRight(k.up, Bin(Bin(w.l, w.n, Red, w.r.l), w.r.n, Black, w.r.r), k.n, k.c)
  }

  /** The subtree of the parent after the last rotation. */
  ghost function Paid(k: Ctx, s: Shape): Shape
    requires !k.Hole? && Sibling(k).Bin?
  {
    var w := Sibling(k);
    if k.InLeft? then Bin(Bin(s, k.n, Black, w.l), w.n, k.c, Blackened(w.r))
    else Bin(Blackened(w.l), w.n, k.c, Bin(w.r, k.n, Black, s))
  }

  ghost function FarChild(k: Ctx): Shape
    requires !k.Hole? && Sibling(k).Bin?
  {
    if k.InLeft? then Sibling(k).r else Sibling(k).l
  }

  /** The part of a round behind the red-sibling case; Gone if the sibling is missing, which the
      code does not check. */
  ghost function SecondHalf(k: Ctx, s: Shape): Place
    requires !k.Hole?
  {
    var w := Sibling(k);
    if w.Nil? then Gone
    else if !IsRed(w.l) && !IsRed(w.r) then
      At(k.up, if k.InLeft? then Bin(s, k.n, k.c, w.(c := Red)) else Bin(w.(c := Red), k.n, k.c, s))
    else
      var k' := if IsRed(FarChild(k)) then k else Turned(k);
      At(Hole, Plug(k'.up, Paid(k', s)))
  }

  /** One round of the loop. */
  ghost function Round(k: Ctx, s: Shape): Place
    requires !k.Hole?
  {
    SecondHalf(if IsRed(Sibling(k)) then Lowered(k) else k, s)
  }

  ghost function Rank(k: Ctx, s: Shape): nat
  {
    if k.Hole? || IsRed(s) then 0 else 1 + Depth(k)
  }

  /** A round comes nearer to the root, or ends the loop. */
  lemma RoundRank(k: Ctx, s: Shape)
    requires !k.Hole? && s.Bin? && s.c.Black? && Round(k, s).At?
    ensures Rank(Round(k, s).k, Round(k, s).s) < Rank(k, s)
  {}

  /** What fixup_del makes of a tree with x at the top of s. */
  ghost function Repair(k: Ctx, s: Shape): Place
    decreases Rank(k, s)
  {
    if k.Hole? || IsRed(s) then At(Hole, Plug(k, Blackened(s)))
    else
      var p := Round(k, s);
      if p.Gone? then Gone else Repair(p.k, p.s)
  }

  // ---------- when the loop gets through ----------

  /** From x in the hole of k the loop meets no missing sibling: it goes up only past black siblings
      with black children, and every node it stops at has a sibling to work with. */
  ghost predicate Supported(k: Ctx)
  {
    k.Hole? ||
    (var w := Sibling(k);
     w.Bin? && if IsRed(w) then (if k.InLeft? then w.l.Bin? else w.r.Bin?)
               else IsRed(w.l) || IsRed(w.r) || k.c.Red? || Supported(k.up))
  }

  lemma {:induction false} RepairSupported(k: Ctx, s: Shape)
    requires s.Bin?
    ensures Repair(k, s).At? <==> IsRed(s) || Supported(k)
    decreases k
  {
    if k.Hole? || IsRed(s) {
    } else {
      var w := Sibling(k);
      if w.Nil? {
      } else if IsRed(w) {
        LoweredRound(k, s);
      } else if IsRed(w.l) || IsRed(w.r) {
        WholeRepair(Round(k, s).s);
      } else {
        RepairSupported(k.up, Round(k, s).s);
      }
    }
  }

  /** The whole tree is left: only the root is painted. */
  lemma WholeRepair(s: Shape)
    ensures Repair(Hole, s).At?
  {}

  /** After a red sibling has been rotated away the parent is red, and the loop ends. */
  lemma LoweredRound(k: Ctx, s: Shape)
    requires s.Bin? && s.c.Black? && !k.Hole? && IsRed(Sibling(k))
    ensures Repair(k, s).At? <==> if k.InLeft? then Sibling(k).l.Bin? else Sibling(k).r.Bin?
  {
    var p := Round(k, s);
    assert p.At? <==> if k.InLeft? then Sibling(k).l.Bin? else Sibling(k).r.Bin?;
    if p.At? {
      assert p.k.Hole? || IsRed(p.s);
    }
  }

  // ---------- what the loop does to the colours ----------

  /** s may be red below red, and paths through it may be short; otherwise the colours are right. */
  ghost predicate ThinAt(k: Ctx, s: Shape)
  {
    s.Bin? && NoRedRed(Blackened(s)) && CtxNoRedRed(k, false) && CtxRootBlack(k)
  }

  lemma SecondThin(k: Ctx, s: Shape)
    requires ThinAt(k, s) && !k.Hole? && s.c.Black? && !IsRed(Sibling(k)) && SecondHalf(k, s).At?
    ensures ThinAt(SecondHalf(k, s).k, SecondHalf(k, s).s)
  {
    var w := Sibling(k);
    assert NoRedRed(s) && NoRedRed(w) && CtxNoRedRed(k.up, k.c.Red?);
    if !IsRed(w.l) && !IsRed(w.r) {
      assert NoRedRed(w.(c := Red));
    } else {
      var k' := if IsRed(FarChild(k)) then k else Turned(k);
      TurnedThin(k);
      PaidThin(k', s);
      PlugBin(k'.up, Paid(k', s));
    }
  }

  lemma TurnedThin(k: Ctx)
    requires !k.Hole? && CtxNoRedRed(k, false) && Sibling(k).Bin? && !IsRed(Sibling(k))
    requires IsRed(Sibling(k).l) || IsRed(Sibling(k).r)
    ensures !IsRed(FarChild(k)) ==>
      var k' := Turned(k);
      k'.up == k.up && k'.c == k.c && NoRedRed(Sibling(k')) && !IsRed(Sibling(k')) && IsRed(FarChild(k'))
  {
    var w := Sibling(k);
    var near := if k.InLeft? then w.l else w.r;
    if !IsRed(FarChild(k)) {
      assert NoRedRed(near) && NoRedRed(FarChild(k));
      assert NoRedRed(FarChild(Turned(k)));
    }
  }

  lemma PaidThin(k: Ctx, s: Shape)
    requires !k.Hole? && NoRedRed(s) && CtxNoRedRed(k.up, k.c.Red?)
    requires Sibling(k).Bin? && NoRedRed(Sibling(k)) && (k.up.Hole? ==> k.c.Black?) && CtxRootBlack(k.up)
    requires !IsRed(s)
    ensures Tinted(Plug(k.up, Paid(k, s)))
  {
    var w := Sibling(k);
    var t := Paid(k, s);
    assert NoRedRed(w.l) && NoRedRed(w.r);
    assert NoRedRed(Blackened(FarChild(k)));
    assert NoRedRed(if k.InLeft? then t.l else t.r);
    assert NoRedRed(t);
    TintedPlug(k.up, t);
  }

  lemma LoweredThin(k: Ctx, s: Shape)
    requires ThinAt(k, s) && !k.Hole? && IsRed(Sibling(k))
    ensures ThinAt(Lowered(k), s) && !IsRed(Sibling(Lowered(k)))
  {
    var w := Sibling(k);
    assert NoRedRed(w) && CtxNoRedRed(k.up, k.c.Red?);
  }

  /** However short its paths, a rightly coloured tree stays rightly coloured if the loop gets
      through. */
  lemma {:induction false} RepairThin(k: Ctx, s: Shape)
    requires ThinAt(k, s) && Repair(k, s).At?
    ensures Tinted(Repair(k, s).s)
    decreases Rank(k, s)
  {
    if k.Hole? || IsRed(s) {
      TintedPlug(k, Blackened(s));
    } else {
      if IsRed(Sibling(k)) {
        LoweredThin(k, s);
        SecondThin(Lowered(k), s);
      } else {
        SecondThin(k, s);
      }
      RepairThin(Round(k, s).k, Round(k, s).s);
    }
  }

  // ---------- a tree that is one black short ----------

  /** A round keeps a deficient tree deficient, and never misses a sibling. */
  lemma RoundDeficit(k: Ctx, s: Shape)
    requires DeficitAt(k, s) && !k.Hole? && s.c.Black?
    ensures Round(k, s).At? && DeficitAt(Round(k, s).k, Round(k, s).s)
  {
    SiblingExists(k, s);
    if IsRed(Sibling(k)) {
      RedSibling(k, s);
      SecondDeficit(Lowered(k), s);
    } else {
      SecondDeficit(k, s);
    }
  }

  lemma SecondDeficit(k: Ctx, s: Shape)
    requires DeficitAt(k, s) && !k.Hole? && s.c.Black? && !IsRed(Sibling(k))
    ensures SecondHalf(k, s).At? && DeficitAt(SecondHalf(k, s).k, SecondHalf(k, s).s)
  {
    SiblingExists(k, s);
    var w := Sibling(k);
    if !IsRed(w.l) && !IsRed(w.r) {
      BlackNephews(k, s);
    } else if IsRed(FarChild(k)) {
      FarNephew(k, s);
      PlugBin(k.up, Paid(k, s));
      Whole(Plug(k.up, Paid(k, s)));
    } else {
      NearNephew(k, s);
      var k' := Turned(k);
      SiblingExists(k', s);
      FarNephew(k', s);
      PlugBin(k'.up, Paid(k', s));
      Whole(Plug(k'.up, Paid(k', s)));
    }
  }

  /** From a deficient tree the loop ends in a red-black tree. */
  lemma {:induction false} RepairDeficit(k: Ctx, s: Shape)
    requires DeficitAt(k, s)
    ensures Repair(k, s).At? && Repair(k, s).k.Hole? && RedBlack(Repair(k, s).s)
    decreases Rank(k, s)
  {
    if k.Hole? || IsRed(s) {
      DeficitDone(k, s);
    } else {
      RoundDeficit(k, s);
      RepairDeficit(Round(k, s).k, Round(k, s).s);
    }
  }

  lemma {:induction false} PlugBin(k: Ctx, s: Shape)
    requires s.Bin?
    ensures Plug(k, s).Bin?
  {
    match k
    case Hole =>
    case InLeft(up, n, c, r) => PlugBin(up, Bin(s, n, c, r));
    case InRight(up, l, n, c) => PlugBin(up, Bin(l, n, c, s));
  }

  lemma Whole(s: Shape)
    requires RedBlack(s) && s.Bin?
    ensures DeficitAt(Hole, s)
  {}

  // ---------- nested contexts ----------

  ghost function Compose(outer: Ctx, inner: Ctx): Ctx
  {
    match inner
    case Hole => outer
    case InLeft(up, n, c, r) => InLeft(Compose(outer, up), n, c, r)
    case InRight(up, l, n, c) => InRight(Compose(outer, up), l, n, c)
  }

  lemma {:induction false} PlugCompose(outer: Ctx, inner: Ctx, s: Shape)
    ensures Plug(Compose(outer, inner), s) == Plug(outer, Plug(inner, s))
  {
    match inner
    case Hole =>
    case InLeft(up, n, c, r) => PlugCompose(outer, up, Bin(s, n, c, r));
    case InRight(up, l, n, c) => PlugCompose(outer, up, Bin(l, n, c, s));
  }

  /** Which node sits in a frame is of no consequence to the colours. */
  lemma {:induction false} Renamed(k: Ctx, l: Shape, z: Node, y: Node, c: Color, inner: Ctx, red: bool, h: nat)
    ensures var k1, k2 := Compose(InRight(k, l, z, c), inner), Compose(InRight(k, l, y, c), inner);
      && (CtxNoRedRed(k1, red) <==> CtxNoRedRed(k2, red))
      && (CtxBalanced(k1, h) <==> CtxBalanced(k2, h))
      && (CtxRootBlack(k1) <==> CtxRootBlack(k2))
  {
    if inner.Hole? {
    } else {
      Renamed(k, l, z, y, c, inner.up, inner.c.Red?, h + Weight(inner.c));
    }
  }

  // ---------- what rbtree_delete leaves ----------

  ghost function Leftmost(s: Shape): Shape
    requires s.Bin?
  {
    if s.l.Nil? then s else Leftmost(s.l)
  }

  /** Where rbtree_delete takes a node out when asked to delete s.n: at s itself, or at
      the successor when s.n has two children. */
  ghost function Victim(s: Shape): (v: Shape)
    requires s.Bin?
    ensures v.Bin? && (v.l.Nil? || v.r.Nil?)
  {
    if s.l.Nil? || s.r.Nil? then s else LeftmostHasNoLeft(s.r); Leftmost(s.r)
  }

  lemma LeftmostHasNoLeft(s: Shape)
    requires s.Bin?
    ensures Leftmost(s).Bin? && Leftmost(s).l.Nil?
  {}

  /** Only left turns: the way minimum walks. */
  ghost predicate AllLeft(k: Ctx)
  {
    k.Hole? || (k.InLeft? && AllLeft(k.up))
  }

  lemma {:induction false} AllLeftPlug(k: Ctx, s: Shape)
    requires AllLeft(k) && s.Bin?
    ensures Plug(k, s).Bin? && Leftmost(Plug(k, s)) == Leftmost(s) && Before(k) == []
  {
    if k.Hole? {
    } else {
      AllLeftPlug(k.up, Around(k, s));
    }
  }

  /** The way minimum walks down s, below k. */
  ghost function Spine(k: Ctx, s: Shape): Ctx
    requires s.Bin?
    decreases s
  {
    if s.l.Nil? then k else Spine(InLeft(k, s.n, s.c, s.r), s.l)
  }

  lemma {:induction false} ComposeSpine(outer: Ctx, k: Ctx, s: Shape)
    requires s.Bin?
    ensures Compose(outer, Spine(k, s)) == Spine(Compose(outer, k), s)
    decreases s
  {
    if !s.l.Bin? {
    } else {
      ComposeSpine(outer, InLeft(k, s.n, s.c, s.r), s.l);
    }
  }

  /** Where the node taken out is missing, once s.n has been replaced. */
  ghost function VictimCtx(k: Ctx, s: Shape): Ctx
    requires s.Bin?
  {
    if s.l.Nil? || s.r.Nil? then k else Spine(InRight(k, s.l, Victim(s).n, s.c), s.r)
  }

  /** rbtree_delete gets through: the node taken out is red, or has no child, or its child is red and
      only needs painting, or the loop that starts at the child is supported by what is beside it. */
  ghost predicate Survives(k: Ctx, s: Shape)
    requires s.Bin?
  {
    var v := Victim(s);
    v.c.Red? || OnlyChild(v).Nil? || IsRed(OnlyChild(v)) || Supported(VictimCtx(k, s))
  }

  /** What taking the node out does to a rightly coloured tree. */
  lemma TakenOut(k: Ctx, v: Shape)
    requires v.Bin? && (v.l.Nil? || v.r.Nil?) && Tinted(Plug(k, v))
    ensures v.c.Red? || OnlyChild(v).Nil? ==> Tinted(Plug(k, OnlyChild(v)))
    ensures v.c.Black? && OnlyChild(v).Bin? ==> ThinAt(k, OnlyChild(v))
  {
    TintedPlug(k, v);
    TintedPlug(k, OnlyChild(v));
    assert NoRedRed(OnlyChild(v));
  }

  /** The successor comes first in the right subtree. */
  lemma SuccessorFirst(km: Ctx, sm: Shape)
    requires AllLeft(km) && sm.Bin? && sm.l.Nil?
    ensures Inorder(Plug(km, sm)) == [sm.n] + Inorder(Plug(km, sm.r))
  {
    AllLeftPlug(km, sm);
    InorderPlug(km, sm);
    InorderPlug(km, sm.r);
    assert Inorder(sm) == [sm.n] + Inorder(sm.r);
    Regroup([sm.n], Inorder(sm.r), After(km), []);
  }

  /** In-order, a tree around its node s.n ... */
  lemma InorderMiddle(k: Ctx, s: Shape)
    requires s.Bin?
    ensures Inorder(Plug(k, s)) == (Before(k) + Inorder(s.l)) + [s.n] + (Inorder(s.r) + After(k))
  {
    InorderPlug(k, s);
    var b, l, r, a := Before(k), Inorder(s.l), Inorder(s.r), After(k);
    Regroup(b, l + [s.n], r, a);
    Regroup([], b, l, [s.n]);
  }

  /** ... and what remains without it. */
  lemma InorderWithout(k: Ctx, s: Shape, s': Shape)
    requires s.Bin? && Inorder(s') == Inorder(s.l) + Inorder(s.r)
    ensures Inorder(Plug(k, s')) == (Before(k) + Inorder(s.l)) + (Inorder(s.r) + After(k))
  {
    InorderPlug(k, s');
    Regroup(Before(k), Inorder(s.l), Inorder(s.r), After(k));
  }

  /** In a red-black tree the child of a black node with one child is red, so that
      fixup_del only has to paint it. */
  lemma OnlyChildIsRed(k: Ctx, s: Shape)
    requires RedBlack(Plug(k, s)) && s.Bin? && (s.l.Nil? || s.r.Nil?)
    ensures OnlyChild(s).Bin? ==> s.c.Black? && IsRed(OnlyChild(s)) && DeficitAt(k, OnlyChild(s))
  {
    RedBlackPlug(k, s);
    var x := OnlyChild(s);
    if x.Bin? {
      assert BlackHeight(x) == 0;
      assert NoRedRed(x) && Balanced(x);
    }
  }

  /** Without a call to fixup_del the red-black conditions survive exactly when the
      spliced-out node was red or the tree is now empty. */
  lemma Unrepaired(k: Ctx, s: Shape)
    requires RedBlack(Plug(k, s)) && s.Bin? && s.l.Nil? && s.r.Nil?
    ensures RedBlack(Plug(k, Nil)) <==> s.c.Red? || k.Hole?
  {
    RedBlackPlug(k, s);
    RedBlackPlug(k, Nil);
  }

  /** Colours only: the successor's place below y is as good as below z. */
  lemma AsGood(k: Ctx, s: Shape, y: Node, km: Ctx, sm: Shape)
    requires s.Bin? && s.r == Plug(km, sm)
    ensures var s' := Plug(Compose(InRight(k, s.l, y, s.c), km), sm);
      (Tinted(s') <==> Tinted(Plug(k, s))) && (Balanced(s') <==> Balanced(Plug(k, s)))
  {
    var k1, k2 := Compose(InRight(k, s.l, s.n, s.c), km), Compose(InRight(k, s.l, y, s.c), km);
    PlugCompose(InRight(k, s.l, s.n, s.c), km, sm);
    TintedPlug(k1, sm);
    TintedPlug(k2, sm);
    BalancedPlug(k1, sm);
    BalancedPlug(k2, sm);
    Renamed(k, s.l, s.n, y, s.c, km, IsRed(sm), BlackHeight(sm));
  }

  lemma {:induction false} ComposeAbove(k: Ctx, km: Ctx)
    ensures Above(Compose(k, km)) == if km.Hole? then Above(k) else km.n
  {}

  lemma {:induction false} CtxInside(km: Ctx, sm: Shape)
    requires !km.Hole?
    ensures km.n in Nodes(Plug(km, sm)) && Plug(km, sm).Bin?
  {
    NodesPlug(km, sm);
  }

  /** The case that is not repaired: a black leaf below a black root. */
  lemma BlackLeafExample(a: Node, b: Node, c: Node)
    requires a != b && b != c && a != c
    ensures var k, leaf := InLeft(Hole, b, Black, Bin(Nil, c, Black, Nil)), Bin(Nil, a, Black, Nil);
      && Distinct(Plug(k, leaf)) && RedBlack(Plug(k, leaf))
      && Victim(leaf) == leaf && !RedBlack(Plug(k, OnlyChild(leaf)))
  {
    var k, leaf := InLeft(Hole, b, Black, Bin(Nil, c, Black, Nil)), Bin(Nil, a, Black, Nil);
    var right := Bin(Nil, c, Black, Nil);
    assert NoRedRed(leaf) && NoRedRed(right) && Balanced(leaf) && Balanced(right);
    assert Plug(k, leaf) == Bin(leaf, b, Black, right) && RedBlack(Bin(leaf, b, Black, right));
    Unrepaired(k, leaf);
  }

  /** What can become of that: with only black nodes, deleting b from a, b, c on a right spine calls
      fixup_del on a node without a sibling. */
  lemma MissingSiblingExample(a: Node, b: Node, c: Node)
    requires a != b && b != c && a != c
    ensures var k, s := InRight(Hole, Nil, a, Black), Bin(Nil, b, Black, Bin(Nil, c, Black, Nil));
      Distinct(Plug(k, s)) && Tinted(Plug(k, s)) && !Survives(k, s) && Repair(k, OnlyChild(s)).Gone?
  {
    var k, s := InRight(Hole, Nil, a, Black), Bin(Nil, b, Black, Bin(Nil, c, Black, Nil));
    assert Round(k, OnlyChild(s)).Gone?;
    assert NoRedRed(s.r) && NoRedRed(s);
    TintedPlug(k, s);
  }

  ghost function BlackLeaf(n: Node): Shape
  {
    Bin(Nil, n, Black, Nil)
  }

  /** Such a tree comes about: from seven black nodes in a perfect red-black tree, deleting the
      black leaves d, e, f and then b, none of which is repaired, leaves a, c, g on a right spine. */
  lemma SpineComesAbout(a: Node, b: Node, c: Node, d: Node, e: Node, f: Node, g: Node)
    ensures var right := Bin(BlackLeaf(f), c, Black, BlackLeaf(g));
      var right' := Bin(Nil, c, Black, BlackLeaf(g));
      var k1 := InLeft(InLeft(Hole, a, Black, right), b, Black, BlackLeaf(e));
      var k2 := InRight(InLeft(Hole, a, Black, right), Nil, b, Black);
      var k3 := InLeft(InRight(Hole, BlackLeaf(b), a, Black), c, Black, BlackLeaf(g));
      var k4 := InLeft(Hole, a, Black, right');
      && RedBlack(Plug(k1, BlackLeaf(d))) && Plug(k1, Nil) == Plug(k2, BlackLeaf(e))
      && Plug(k2, Nil) == Plug(k3, BlackLeaf(f)) && Plug(k3, Nil) == Plug(k4, BlackLeaf(b))
      && Plug(k4, Nil) == Plug(InRight(Hole, Nil, a, Black), Bin(Nil, c, Black, BlackLeaf(g)))
  {
    var left, right := Bin(BlackLeaf(d), b, Black, BlackLeaf(e)), Bin(BlackLeaf(f), c, Black, BlackLeaf(g));
    forall n: Node | n in {d, e, f, g}
      ensures NoRedRed(BlackLeaf(n)) && Balanced(BlackLeaf(n)) && BlackHeight(BlackLeaf(n)) == 1
    {}
    assert NoRedRed(left) && NoRedRed(right) && Balanced(left) && Balanced(right);
    assert BlackHeight(left) == BlackHeight(right);
    assert RedBlack(Bin(left, a, Black, right));
    TwoPlugs(InLeft(InLeft(Hole, a, Black, right), b, Black, BlackLeaf(e)), BlackLeaf(d));
    TwoPlugs(InLeft(InLeft(Hole, a, Black, right), b, Black, BlackLeaf(e)), Nil);
    TwoPlugs(InRight(InLeft(Hole, a, Black, right), Nil, b, Black), BlackLeaf(e));
    TwoPlugs(InRight(InLeft(Hole, a, Black, right), Nil, b, Black), Nil);
    TwoPlugs(InLeft(InRight(Hole, BlackLeaf(b), a, Black), c, Black, BlackLeaf(g)), BlackLeaf(f));
    TwoPlugs(InLeft(InRight(Hole, BlackLeaf(b), a, Black), c, Black, BlackLeaf(g)), Nil);
  }

  /** Every node of a tree has a position. */
  lemma {:induction false} Locate(k0: Ctx, s0: Shape, z: Node) returns (k: Ctx, s: Shape)
    requires z in Nodes(s0)
    ensures Plug(k, s) == Plug(k0, s0) && s.Bin? && s.n == z
    decreases s0
  {
    if z == s0.n {
      k, s := k0, s0;
    } else if z in Nodes(s0.l) {
      k, s := Locate(InLeft(k0, s0.n, s0.c, s0.r), s0.l, z);
    } else {
      k, s := Locate(InRight(k0, s0.l, s0.n, s0.c), s0.r, z);
    }
  }
}
