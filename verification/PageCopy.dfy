/** What fork's deep copy of a page table should produce, as a property of memory.

`Copy(m, a, b, level)` says that the tree of frames below b is a copy of the tree
below a; `Frames` is the set of frames in such a tree and `TreeLike` says that no
frame occurs in it twice.
*/
module PageCopy {
  import opened PageWalk

  /** How many entries of a table the copy descends into: the low half at the top. */
  function Limit(level: int): int
  {
    if level == 4 then 256 else 512
  }

  /** The frames of the tree below pg, down to the pages themselves. */
  ghost function Frames(m: Mem, pg: int, level: nat): set<int>
    decreases level, 1
  {
    if level == 0 then {pg}
    else {pg} + set i, f | 0 <= i < Limit(level) && f in Child(m, pg, level, i) :: f
  }

  /** The frames below entry i. */
  ghost function Child(m: Mem, pg: int, level: nat, i: int): set<int>
    requires level > 0
    decreases level, 0
  {
    if Read(m, pg, i) == ZERO then {} else Frames(m, HwFrame(Read(m, pg, i)), level - 1)
  }

  lemma ChildFrames(m: Mem, pg: int, level: nat, i: int)
    requires level > 0 && 0 <= i < Limit(level) && Read(m, pg, i) != ZERO
    ensures Frames(m, HwFrame(Read(m, pg, i)), level - 1) <= Frames(m, pg, level)
  {
    assert Child(m, pg, level, i) <= Frames(m, pg, level);
  }

  ghost predicate Copy(m: Mem, a: int, b: int, level: nat)
    decreases level, 1
  {
    if level == 0 then forall j | 0 <= j < 512 :: Read(m, b, j) == Read(m, a, j) else
    && (forall i | 0 <= i < Limit(level) :: CopiedEntry(m, a, b, level, i))
    && (level == 4 ==> forall i | 256 <= i < 512 :: UpperEntry(m, a, b, i))
  }

  /** The same eleven flag bits, and below it a copy of what was below the original. */
  ghost predicate CopiedEntry(m: Mem, a: int, b: int, level: nat, i: int)
    requires level > 0
    decreases level, 0
  {
    var x, y := Read(m, a, i), Read(m, b, i);
    if x == ZERO then y == ZERO
    else y != ZERO && y.flags == x.flags & 0x7FF && Copy(m, HwFrame(x), HwFrame(y), level - 1)
  }

  /** The upper half is shared, except for the recursive slot. */
  ghost predicate UpperEntry(m: Mem, a: int, b: int, i: int)
  {
    Read(m, b, i) == if i == 511 then Word(b, PE_RW | PE_P) else Read(m, a, i)
  }

  ghost predicate TreeLike(m: Mem, pg: int, level: nat)
    decreases level
  {
    level == 0 ||
    (&& (forall i | 0 <= i < Limit(level) ::
           pg !in Child(m, pg, level, i)
           && (Read(m, pg, i) != ZERO ==> TreeLike(m, HwFrame(Read(m, pg, i)), level - 1)))
     && (forall i, j | 0 <= i < j < Limit(level) :: Child(m, pg, level, i) !! Child(m, pg, level, j)))
  }

  // ---------- what lies outside a tree does not matter to it ----------

  ghost predicate Agree(m: Mem, m': Mem, s: set<int>)
  {
    forall f, j | f in s :: Read(m', f, j) == Read(m, f, j)
  }

  lemma {:induction false} FramesFrame(m: Mem, m': Mem, pg: int, level: nat)
    requires Agree(m, m', Frames(m, pg, level))
    ensures Frames(m', pg, level) == Frames(m, pg, level)
    decreases level
  {
    if level == 0 {
    } else {
      forall i | 0 <= i < Limit(level) && Read(m, pg, i) != ZERO
        ensures Frames(m', HwFrame(Read(m, pg, i)), level - 1) == Frames(m, HwFrame(Read(m, pg, i)), level - 1)
      {
        ChildFrames(m, pg, level, i);
        FramesFrame(m, m', HwFrame(Read(m, pg, i)), level - 1);
      }
      assert forall i | 0 <= i < Limit(level) :: Child(m', pg, level, i) == Child(m, pg, level, i);
    }
  }

  lemma {:induction false} CopyFrame(m: Mem, m': Mem, a: int, b: int, level: nat)
    requires Copy(m, a, b, level)
    requires Agree(m, m', Frames(m, a, level)) && Agree(m, m', Frames(m, b, level))
    ensures Copy(m', a, b, level)
    decreases level
  {
    assert a in Frames(m, a, level) && b in Frames(m, b, level);
    if level == 0 {
    } else {
      forall i | 0 <= i < Limit(level)
        ensures CopiedEntry(m', a, b, level, i)
      {
        assert CopiedEntry(m, a, b, level, i);
        if Read(m, a, i) != ZERO {
          ChildFrames(m, a, level, i);
          ChildFrames(m, b, level, i);
          CopyFrame(m, m', HwFrame(Read(m, a, i)), HwFrame(Read(m, b, i)), level - 1);
        }
      }
      if level == 4 {
        forall i | 256 <= i < 512
          ensures UpperEntry(m', a, b, i)
        {
          assert UpperEntry(m, a, b, i);
        }
      }
    }
  }

  lemma {:induction false} TreeFrame(m: Mem, m': Mem, pg: int, level: nat)
    requires TreeLike(m, pg, level) && Agree(m, m', Frames(m, pg, level))
    ensures TreeLike(m', pg, level)
    decreases level
  {
    assert pg in Frames(m, pg, level);
    if level == 0 {
    } else {
      forall i | 0 <= i < Limit(level)
        ensures Child(m', pg, level, i) == Child(m, pg, level, i)
        ensures Read(m', pg, i) != ZERO ==> TreeLike(m', HwFrame(Read(m', pg, i)), level - 1)
      {
        if Read(m, pg, i) != ZERO {
          ChildFrames(m, pg, level, i);
          FramesFrame(m, m', HwFrame(Read(m, pg, i)), level - 1);
          TreeFrame(m, m', HwFrame(Read(m, pg, i)), level - 1);
        }
      }
    }
  }

  // ---------- copying entry by entry ----------

  /** Entry k has been dealt with: its copy is a tree of frames from s. */
  ghost predicate Done(m: Mem, a: int, b: int, level: nat, k: int, s: set<int>)
    requires level > 0
  {
    && CopiedEntry(m, a, b, level, k) && Child(m, b, level, k) <= s
    && (Read(m, b, k) != ZERO ==> TreeLike(m, HwFrame(Read(m, b, k)), level - 1))
  }

  lemma DoneFrame(m: Mem, m': Mem, a: int, b: int, level: nat, k: int, s: set<int>, s': set<int>)
    requires level > 0 && Done(m, a, b, level, k, s) && s <= s'
    requires Read(m', a, k) == Read(m, a, k) && Read(m', b, k) == Read(m, b, k)
    requires Agree(m, m', Child(m, a, level, k)) && Agree(m, m', Child(m, b, level, k))
    ensures Done(m', a, b, level, k, s') && Child(m', b, level, k) == Child(m, b, level, k)
  {
    var x, y := Read(m, a, k), Read(m, b, k);
    if x != ZERO {
      CopyFrame(m, m', HwFrame(x), HwFrame(y), level - 1);
      FramesFrame(m, m', HwFrame(y), level - 1);
      TreeFrame(m, m', HwFrame(y), level - 1);
    }
  }

  /** All entries dealt with, by disjoint sets of frames that leave out b itself. */
  lemma AllDone(m: Mem, a: int, b: int, level: nat, s: set<int>)
    requires level > 0 && b !in s && DoneUpTo(m, a, b, level, Limit(level), s)
    requires level == 4 ==> forall i | 256 <= i < 512 :: UpperEntry(m, a, b, i)
    ensures Copy(m, a, b, level) && TreeLike(m, b, level) && Frames(m, b, level) <= s + {b}
  {
    forall k | 0 <= k < Limit(level)
      ensures CopiedEntry(m, a, b, level, k)
      ensures b !in Child(m, b, level, k) && Child(m, b, level, k) <= s
      ensures Read(m, b, k) != ZERO ==> TreeLike(m, HwFrame(Read(m, b, k)), level - 1)
    {
      assert Done(m, a, b, level, k, s);
    }
  }

  /** The entries before i are dealt with, by pairwise disjoint sets of frames from s. */
  ghost predicate DoneUpTo(m: Mem, a: int, b: int, level: nat, i: int, s: set<int>)
    requires level > 0
  {
    && (forall k | 0 <= k < i :: Done(m, a, b, level, k, s))
    && (forall k, l | 0 <= k < l < i :: Child(m, b, level, k) !! Child(m, b, level, l))
  }

  /** m1 and m2 differ only in frames of s. */
  ghost predicate OnlyIn(m1: Mem, m2: Mem, s: set<int>)
  {
    forall u, j | u !in s :: Read(m2, u, j) == Read(m1, u, j)
  }

  /** Copying what is below entry i into frames of s2, and then storing the new entry,
      keeps what was done before and deals with entry i.  Meanwhile windows come and go in the
      table wt. */
  lemma EntryStep(m1: Mem, m2: Mem, m3: Mem, a: int, b: int, level: nat, i: int, s1: set<int>, s2: set<int>, wt: int)
    requires level > 0 && 0 <= i < Limit(level) && DoneUpTo(m1, a, b, level, i, s1)
    requires s1 !! s2 && b !in s1 && b !in s2 && Frames(m1, a, level) !! s2 && b !in Frames(m1, a, level)
    requires wt != b && wt !in s1 && wt !in s2 && wt !in Frames(m1, a, level)
    requires OnlyIn(m1, m2, s2 + {wt}) && OneWord(m2, m3, b, i)
    requires var x, y := Read(m1, a, i), Read(m3, b, i);
      && x != ZERO && y != ZERO && y.flags == x.flags & 0x7FF && Copy(m2, HwFrame(x), HwFrame(y), level - 1)
      && TreeLike(m2, HwFrame(y), level - 1) && Frames(m2, HwFrame(y), level - 1) <= s2
    ensures DoneUpTo(m3, a, b, level, i + 1, s1 + s2)
  {
    var x, y := Read(m1, a, i), Read(m3, b, i);
    assert a in Frames(m1, a, level);
    forall k | 0 <= k < i
      ensures Done(m3, a, b, level, k, s1 + s2) && Child(m3, b, level, k) == Child(m1, b, level, k)
      ensures Child(m3, b, level, k) <= s1
    {
      assert Done(m1, a, b, level, k, s1);
      assert Child(m1, a, level, k) <= Frames(m1, a, level);
      DoneFrame(m1, m3, a, b, level, k, s1, s1 + s2);
    }
    ChildFrames(m1, a, level, i);
    FramesFrame(m1, m2, HwFrame(x), level - 1);
    CopyFrame(m2, m3, HwFrame(x), HwFrame(y), level - 1);
    FramesFrame(m2, m3, HwFrame(y), level - 1);
    TreeFrame(m2, m3, HwFrame(y), level - 1);
    assert Done(m3, a, b, level, i, s1 + s2);
  }

  /** An empty entry needs nothing. */
  lemma EmptyStep(m: Mem, a: int, b: int, level: nat, i: int, s: set<int>)
    requires level > 0 && 0 <= i < Limit(level) && DoneUpTo(m, a, b, level, i, s)
    requires Read(m, a, i) == ZERO && Read(m, b, i) == ZERO
    ensures DoneUpTo(m, a, b, level, i + 1, s)
  {
    assert Done(m, a, b, level, i, s);
  }

  // ---------- the frames handed out along the way ----------

  /** Frames come from a sequence without repetition; none is frame 0, and all fit an entry. */
  ghost predicate Supply(supply: nat -> int)
  {
    (forall i: nat :: 0 < supply(i) < 0x100_0000_0000) && (forall i: nat, j: nat | i < j :: supply(i) != supply(j))
  }

  ghost function New(supply: nat -> int, lo: nat, hi: nat): set<int>
  {
    set i: nat | lo <= i < hi :: supply(i)
  }

  lemma NewSplit(supply: nat -> int, a: nat, b: nat, c: nat)
    requires Supply(supply) && a <= b <= c
    ensures New(supply, a, b) !! New(supply, b, c)
    ensures New(supply, a, b) + New(supply, b, c) == New(supply, a, c)
    ensures forall i: nat | i < a || c <= i :: supply(i) !in New(supply, a, c)
  {}

  /** The tree below pg uses none of the frames still to be handed out, and the table wt, where the
      windows are mapped, is neither in that tree nor among those frames. */
  ghost predicate Untaken(supply: nat -> int, m: Mem, pg: int, level: nat, from: nat, wt: int)
  {
    wt !in Frames(m, pg, level) && forall i: nat | i >= from :: supply(i) !in Frames(m, pg, level) && supply(i) != wt
  }

  lemma UntakenDisjoint(supply: nat -> int, m: Mem, pg: int, level: nat, from: nat, lo: nat, hi: nat, wt: int)
    requires Untaken(supply, m, pg, level, from, wt) && from <= lo
    ensures Frames(m, pg, level) !! New(supply, lo, hi) && wt !in New(supply, lo, hi)
  {}

  /** The copy of a is at entry i: supply(t0) is its new table, m0 the memory at the start. */
  ghost predicate AtEntry(supply: nat -> int, m0: Mem, m: Mem, a: int, level: nat, i: int, t0: nat, t: nat, wt: int)
    requires level > 0
  {
    && t0 < t && OnlyIn(m0, m, New(supply, t0, t) + {wt})
    && DoneUpTo(m, a, supply(t0), level, i, New(supply, t0 + 1, t))
    && forall k | i <= k < 512 :: Read(m, supply(t0), k) == Read(m0, a, k)
  }

  /** The original tree is as it was. */
  lemma TreeKept(supply: nat -> int, m0: Mem, m: Mem, a: int, level: nat, t0: nat, t: nat, wt: int)
    requires Supply(supply) && t0 < t && OnlyIn(m0, m, New(supply, t0, t) + {wt})
    requires Untaken(supply, m0, a, level, t0, wt)
    ensures Agree(m0, m, Frames(m0, a, level)) && Frames(m, a, level) == Frames(m0, a, level)
    ensures a in Frames(m0, a, level) && supply(t0) !in Frames(m0, a, level)
  {
    assert a in Frames(m0, a, level);
    UntakenDisjoint(supply, m0, a, level, t0, t0, t, wt);
    FramesFrame(m0, m, a, level);
  }

  /** What lies below entry i is as it was, too. */
  lemma OriginalKept(supply: nat -> int, m0: Mem, m: Mem, a: int, level: nat, i: int, t0: nat, t: nat, wt: int)
    requires Supply(supply) && 0 < level <= 4 && 0 <= i < Limit(level)
    requires AtEntry(supply, m0, m, a, level, i, t0, t, wt)
    requires Untaken(supply, m0, a, level, t0, wt)
    ensures Read(m, a, i) == Read(m0, a, i) == Read(m, supply(t0), i)
    ensures Frames(m, a, level) == Frames(m0, a, level)
    ensures Read(m0, a, i) != ZERO ==> Untaken(supply, m, HwFrame(Read(m0, a, i)), level - 1, t, wt)
  {
    TreeKept(supply, m0, m, a, level, t0, t, wt);
    if Read(m0, a, i) != ZERO {
      ChildFrames(m0, a, level, i);
      FramesFrame(m0, m, HwFrame(Read(m0, a, i)), level - 1);
    }
  }

  /** One round: m1 to m2 copies what is below the entry x at i into the frames from t1 to
      t2, beginning with c, and m2 to m3 stores the new entry. */
  lemma EntryRound(supply: nat -> int, m0: Mem, m1: Mem, m2: Mem, m3: Mem,
                   a: int, level: nat, i: int, t0: nat, t1: nat, t2: nat, x: Word, c: int, wt: int)
    requires Supply(supply) && 0 < level <= 4 && 0 <= i < Limit(level) && t1 < t2
    requires AtEntry(supply, m0, m1, a, level, i, t0, t1, wt) && Untaken(supply, m0, a, level, t0, wt)
    requires OnlyIn(m1, m2, New(supply, t1, t2) + {wt}) && OneWord(m2, m3, supply(t0), i)
    requires x == Read(m0, a, i) != ZERO && Read(m3, supply(t0), i) == Word(c, x.flags & 0x7FF) && c == supply(t1)
    requires Copy(m2, HwFrame(x), c, level - 1) && TreeLike(m2, c, level - 1)
    requires Frames(m2, c, level - 1) <= New(supply, t1, t2)
    ensures AtEntry(supply, m0, m3, a, level, i + 1, t0, t2, wt)
  {
    var b := supply(t0);
    OriginalKept(supply, m0, m1, a, level, i, t0, t1, wt);
    NewSplit(supply, t0 + 1, t1, t2);
    NewSplit(supply, t0, t1, t2);
    UntakenDisjoint(supply, m0, a, level, t0, t1, t2, wt);
    assert b in New(supply, t0, t2);
    assert HwFrame(Word(c, x.flags & 0x7FF)) == c;
    EntryStep(m1, m2, m3, a, b, level, i, New(supply, t0 + 1, t1), New(supply, t1, t2), wt);
  }

  /** The copy begins: supply(t0) holds the same words as a. */
  lemma Begin(supply: nat -> int, m0: Mem, m: Mem, a: int, level: nat, t0: nat, wt: int)
    requires Supply(supply) && 0 < level <= 4
    requires OnlyIn(m0, m, {supply(t0)} + {wt}) && forall j | 0 <= j < 512 :: Read(m, supply(t0), j) == Read(m0, a, j)
    ensures AtEntry(supply, m0, m, a, level, 0, t0, t0 + 1, wt)
  {
    assert New(supply, t0, t0 + 1) == {supply(t0)};
  }

  /** A page itself is copied in one go. */
  lemma Page(supply: nat -> int, m0: Mem, m: Mem, a: int, t0: nat, wt: int)
    requires Supply(supply) && Untaken(supply, m0, a, 0, t0, wt)
    requires OnlyIn(m0, m, {supply(t0)} + {wt}) && forall j | 0 <= j < 512 :: Read(m, supply(t0), j) == Read(m0, a, j)
    ensures Copy(m, a, supply(t0), 0) && TreeLike(m, supply(t0), 0)
    ensures Frames(m, supply(t0), 0) <= New(supply, t0, t0 + 1) && OnlyIn(m0, m, New(supply, t0, t0 + 1) + {wt})
  {
    assert New(supply, t0, t0 + 1) == {supply(t0)};
    assert a in Frames(m0, a, 0);
  }

  /** The recursive slot changes nothing that was done below the low half. */
  lemma DoneTop(m: Mem, m': Mem, a: int, b: int, s: set<int>)
    requires DoneUpTo(m, a, b, 4, 256, s) && OneWord(m, m', b, 511) && a != b
    requires b !in s && b !in Frames(m, a, 4)
    ensures DoneUpTo(m', a, b, 4, 256, s)
  {
    forall k | 0 <= k < 256
      ensures Done(m', a, b, 4, k, s) && Child(m', b, 4, k) == Child(m, b, 4, k)
    {
      assert Done(m, a, b, 4, k, s);
      assert Child(m, a, 4, k) <= Frames(m, a, 4);
      DoneFrame(m, m', a, b, 4, k, s, s);
    }
  }

  /** The copy ends, at the top level with the recursive slot pointing at the copy. */
  lemma Finish(supply: nat -> int, m0: Mem, m: Mem, m': Mem, a: int, level: nat, t0: nat, t: nat, wt: int)
    requires Supply(supply) && 0 < level <= 4 && Untaken(supply, m0, a, level, t0, wt)
    requires AtEntry(supply, m0, m, a, level, Limit(level), t0, t, wt)
    requires var b := supply(t0);
      if level == 4 then OneWord(m, m', b, 511) && Read(m', b, 511) == Word(b, PE_RW | PE_P) else m' == m
    ensures Copy(m', a, supply(t0), level) && TreeLike(m', supply(t0), level)
    ensures Frames(m', supply(t0), level) <= New(supply, t0, t) && OnlyIn(m0, m', New(supply, t0, t) + {wt})
  {
    var b, s := supply(t0), New(supply, t0 + 1, t);
    NewSplit(supply, t0, t0 + 1, t);
    assert New(supply, t0, t0 + 1) == {b};
    TreeKept(supply, m0, m, a, level, t0, t, wt);
    if level == 4 {
      DoneTop(m, m', a, b, s);
      forall k | 256 <= k < 512
        ensures UpperEntry(m', a, b, k)
      {
        assert Read(m, b, k) == Read(m0, a, k) == Read(m, a, k);
      }
    }
    AllDone(m', a, b, level, s);
  }

  // ---------- what the processor sees ----------

  /** In the low half the walk of the copy goes where the walk of the original goes, table
      for table, and each table is a copy of the original one. */
  lemma {:induction false} CopyWalk(m: Mem, a: int, b: int, p: Path, level: int)
    requires Copy(m, a, b, 4) && 1 <= level <= 4
    requires 0 <= p.i4 < 256 && 0 <= p.i3 < 512 && 0 <= p.i2 < 512 && 0 <= p.i1 < 512
    ensures Table(m, a, p, level).Some? <==> Table(m, b, p, level).Some?
    ensures Table(m, a, p, level).Some? ==> Copy(m, Table(m, a, p, level).value, Table(m, b, p, level).value, level)
    decreases 4 - level
  {
    if level >= 4 {
    } else {
      CopyWalk(m, a, b, p, level + 1);
      if Table(m, a, p, level + 1).Some? {
        var t, u := Table(m, a, p, level + 1).value, Table(m, b, p, level + 1).value;
        var x, y := Read(m, t, Sel(p, level + 1)), Read(m, u, Sel(p, level + 1));
        assert CopiedEntry(m, t, u, level + 1, Sel(p, level + 1));
        SameBits(x, y);
      }
    }
  }

  lemma SameBits(x: Word, y: Word)
    requires y.flags == x.flags & 0x7FF
    ensures Present(x) <==> Present(y)
    ensures LargeBit(x) <==> LargeBit(y)
  {
    assert x.flags & 0x7FF & PE_P == x.flags & PE_P;
    assert x.flags & 0x7FF & PE_PS == x.flags & PE_PS;
  }

  /** Two entries of copied last-level tables, and the pages they lead to. */
  ghost predicate SamePage(m: Mem, x: Word, y: Word)
  {
    && (Present(x) <==> Present(y))
    && (Present(x) ==> y.flags == x.flags & 0x7FF
                       && forall j | 0 <= j < 512 :: Read(m, HwFrame(y), j) == Read(m, HwFrame(x), j))
  }

  lemma SameLeaf(m: Mem, t: int, u: int, i: int)
    requires Copy(m, t, u, 1) && 0 <= i < 512
    ensures SamePage(m, Read(m, t, i), Read(m, u, i))
  {
    var x, y := Read(m, t, i), Read(m, u, i);
    assert CopiedEntry(m, t, u, 1, i);
    if x != ZERO {
      SameBits(x, y);
      assert Copy(m, HwFrame(x), HwFrame(y), 0);
    }
  }

  /** The last-level entries of a low address, and the pages they lead to. */
  lemma CopyLeaf(m: Mem, a: int, b: int, p: Path)
    requires Copy(m, a, b, 4) && Table(m, a, p, 1).Some?
    requires 0 <= p.i4 < 256 && 0 <= p.i3 < 512 && 0 <= p.i2 < 512 && 0 <= p.i1 < 512
    ensures Table(m, b, p, 1).Some? && SamePage(m, Entry(m, a, p, 1), Entry(m, b, p, 1))
  {
    CopyWalk(m, a, b, p, 1);
    SameLeaf(m, Table(m, a, p, 1).value, Table(m, b, p, 1).value, p.i1);
  }

  /** The copy has no large page where the original has none. */
  lemma CopyNoLarge(m: Mem, a: int, b: int, p: Path)
    requires Copy(m, a, b, 4) && NoLarge(m, a, p)
    requires 0 <= p.i4 < 256 && 0 <= p.i3 < 512 && 0 <= p.i2 < 512 && 0 <= p.i1 < 512
    ensures NoLarge(m, b, p)
  {
    forall k | 2 <= k <= 4 && Present(Entry(m, b, p, k))
      ensures !LargeBit(Entry(m, b, p, k))
    {
      CopyWalk(m, a, b, p, k);
      var t, u := Table(m, a, p, k).value, Table(m, b, p, k).value;
      assert CopiedEntry(m, t, u, k, Sel(p, k));
      SameBits(Read(m, t, Sel(p, k)), Read(m, u, Sel(p, k)));
      assert Present(Entry(m, a, p, k));
    }
  }

  /** A low address on 4 KiB pages only: it is mapped in the copy exactly when it is mapped in
      the original, with the same flags, onto a page with the same contents. */
  lemma CopyTranslate(m: Mem, a: int, b: int, v: int)
    requires Copy(m, a, b, 4) && 0 <= v < 0x8000_0000_0000 && NoLarge(m, a, PathOf(v))
    ensures var x, y := Translate(m, a, v), Translate(m, b, v);
      && (x.Hit? <==> y.Hit?)
      && (x.Hit? ==>
            && y.leaf.flags == x.leaf.flags & 0x7FF
            && x.phys == HwFrame(x.leaf) * 4096 + v % 4096 && y.phys == HwFrame(y.leaf) * 4096 + v % 4096
            && forall j | 0 <= j < 512 :: Read(m, HwFrame(y.leaf), j) == Read(m, HwFrame(x.leaf), j))
  {
    var p := PathOf(v);
    LowPath(v);
    CopyWalk(m, a, b, p, 2);
    CopyWalk(m, a, b, p, 3);
    CopyNoLarge(m, a, b, p);
    CopyWalk(m, a, b, p, 1);
    if Table(m, a, p, 1).Some? {
      CopyLeaf(m, a, b, p);
      WalkReachesAll(m, a, p, 1);
      WalkReachesAll(m, b, p, 1);
    }
  }

  lemma LowPath(v: int)
    requires 0 <= v < 0x8000_0000_0000
    ensures 0 <= PathOf(v).i4 < 256
  {}

  // ---------- isolation ----------

  /** The tables on the way to a low address, and the page behind the last of them, are
      frames of the tree. */
  lemma {:induction false} WalkFrames(m: Mem, b: int, p: Path, level: int)
    requires 1 <= level <= 4 && Table(m, b, p, level).Some?
    requires 0 <= p.i4 < 256 && 0 <= p.i3 < 512 && 0 <= p.i2 < 512 && 0 <= p.i1 < 512
    ensures Frames(m, Table(m, b, p, level).value, level) <= Frames(m, b, 4)
    ensures Present(Entry(m, b, p, level)) ==>
      Frames(m, HwFrame(Entry(m, b, p, level)), level - 1) <= Frames(m, b, 4)
    decreases 4 - level
  {
    var t := Table(m, b, p, level).value;
    if level < 4 {
      WalkFrames(m, b, p, level + 1);
    }
    if !Present(Entry(m, b, p, level)) {
    } else {
      ChildFrames(m, t, level, Sel(p, level));
    }
  }

  /** Writing outside the tree below a leaves the walk of every low address alone. */
  lemma {:induction false} WalkAgree(m0: Mem, m: Mem, a: int, p: Path, level: int)
    requires 1 <= level <= 4 && Agree(m0, m, Frames(m0, a, 4))
    requires 0 <= p.i4 < 256 && 0 <= p.i3 < 512 && 0 <= p.i2 < 512 && 0 <= p.i1 < 512
    ensures Table(m, a, p, level) == Table(m0, a, p, level)
    ensures Entry(m, a, p, level) == Entry(m0, a, p, level)
    decreases 4 - level
  {
    if level < 4 {
      WalkAgree(m0, m, a, p, level + 1);
    }
    if !Table(m0, a, p, level).Some? {
    } else {
      WalkFrames(m0, a, p, level);
      assert Table(m0, a, p, level).value in Frames(m0, a, 4);
    }
  }

  lemma TranslateAgree(m0: Mem, m: Mem, a: int, v: int)
    requires Agree(m0, m, Frames(m0, a, 4)) && 0 <= v < 0x8000_0000_0000
    ensures Translate(m, a, v) == Translate(m0, a, v)
    ensures NoLarge(m0, a, PathOf(v)) ==> NoLarge(m, a, PathOf(v))
  {
    LowPath(v);
    forall k | 1 <= k <= 4
      ensures Table(m, a, PathOf(v), k) == Table(m0, a, PathOf(v), k)
      ensures Entry(m, a, PathOf(v), k) == Entry(m0, a, PathOf(v), k)
    {
      WalkAgree(m0, m, a, PathOf(v), k);
    }
  }

  /** The page behind a low address is a frame of the tree. */
  lemma LeafFrame(m: Mem, b: int, v: int)
    requires 0 <= v < 0x8000_0000_0000 && NoLarge(m, b, PathOf(v)) && Translate(m, b, v).Hit?
    ensures HwFrame(Translate(m, b, v).leaf) in Frames(m, b, 4)
  {
    var p := PathOf(v);
    LowPath(v);
    LeafOnly(m, b, v);
    WalkFrames(m, b, p, 1);
    assert HwFrame(Entry(m, b, p, 1)) in Frames(m, HwFrame(Entry(m, b, p, 1)), 0);
  }

  lemma LeafOnly(m: Mem, b: int, v: int)
    requires NoLarge(m, b, PathOf(v)) && Translate(m, b, v).Hit?
    ensures Table(m, b, PathOf(v), 1).Some?
    ensures Present(Entry(m, b, PathOf(v), 1)) && Translate(m, b, v).leaf == Entry(m, b, PathOf(v), 1)
  {}

  /** After the copy the original translates as it did before. Every low page of the copy is
      one of the new frames, which the original does not use, with the original's contents. */
  lemma Isolated(supply: nat -> int, m0: Mem, m: Mem, a: int, b: int, t0: nat, t: nat, v: int, wt: int)
    requires Supply(supply) && t0 < t && Untaken(supply, m0, a, 4, t0, wt)
    requires OnlyIn(m0, m, New(supply, t0, t) + {wt}) && Frames(m, b, 4) <= New(supply, t0, t)
    requires Copy(m, a, b, 4) && 0 <= v < 0x8000_0000_0000 && NoLarge(m0, a, PathOf(v))
    ensures Translate(m, a, v) == Translate(m0, a, v)
    ensures Translate(m0, a, v).Hit? <==> Translate(m, b, v).Hit?
    ensures Translate(m0, a, v).Hit? ==>
      var x, y := HwFrame(Translate(m0, a, v).leaf), HwFrame(Translate(m, b, v).leaf);
      && y in New(supply, t0, t) && y !in Frames(m, a, 4)
      && forall j | 0 <= j < 512 :: Read(m, y, j) == Read(m0, x, j)
  {
    TreeKept(supply, m0, m, a, 4, t0, t, wt);
    TranslateAgree(m0, m, a, v);
    CopyTranslate(m, a, b, v);
    LowPath(v);
    CopyNoLarge(m, a, b, PathOf(v));
    if Translate(m0, a, v).Hit? {
      LeafFrame(m0, a, v);
      LeafFrame(m, b, v);
      UntakenDisjoint(supply, m0, a, 4, t0, t0, t, wt);
    }
  }
}
