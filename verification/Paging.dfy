/** src/kernel/mm/map.c: page tables edited through their own recursive mapping.

The kernel never touches a table by its physical address: it reads and writes the
virtual addresses that `_vrt_entryget` computes, and the processor translates them
through the very tables being edited.
*/
module Paging {
  import opened PageWalk
  import opened PageRights

  const R_IDX := 511

  /** VRT: a canonical address from four table indices. */
  function Vrt(i4: int, i3: int, i2: int, i1: int): int
  {
    (if i4 > 255 then 0xFFFF else 0) * 0x1_0000_0000_0000
    + i4 % 512 * 0x80_0000_0000 + i3 % 512 * 0x4000_0000 + i2 % 512 * 0x20_0000 + i1 % 512 * 0x1000
  }

  /** _vrt_entryget: the virtual address of the table a walk of addr visits at a level. */
  function VrtEntryGet(addr: int, level: int): int
    requires 1 <= level <= 4
  {
    var p := PathOf(addr);
    if level == 4 then Vrt(R_IDX, R_IDX, R_IDX, R_IDX)
    else if level == 3 then Vrt(R_IDX, R_IDX, R_IDX, p.i4)
    else if level == 2 then Vrt(R_IDX, R_IDX, p.i4, p.i3)
    else Vrt(R_IDX, p.i4, p.i3, p.i2)
  }

  lemma Digit(x: int, q: int, r: int)
    requires x == 512 * q + r && 0 <= r < 512
    ensures x % 512 == r
  {}

  lemma Quotients(v: int, x4: int, x3: int, x2: int, x1: int)
    requires x4 * 0x80_0000_0000 <= v < x4 * 0x80_0000_0000 + 0x80_0000_0000
    requires x3 * 0x4000_0000 <= v < x3 * 0x4000_0000 + 0x4000_0000
    requires x2 * 0x20_0000 <= v < x2 * 0x20_0000 + 0x20_0000
    requires x1 * 0x1000 <= v < x1 * 0x1000 + 0x1000
    ensures v / 0x80_0000_0000 == x4 && v / 0x4000_0000 == x3 && v / 0x20_0000 == x2 && v / 0x1000 == x1
    ensures v % 0x1000 == v - x1 * 0x1000
  {}

  lemma VrtValue(a: int, b: int, c: int, d: int)
    requires 0 <= a < 512 && 0 <= b < 512 && 0 <= c < 512 && 0 <= d < 512
    ensures Vrt(a, b, c, d) == (if a > 255 then 0xFFFF else 0) * 0x1_0000_0000_0000
      + a * 0x80_0000_0000 + b * 0x4000_0000 + c * 0x20_0000 + d * 0x1000
  {}

  /** The indices put into an address are the ones the walk takes out. */
  lemma VrtPath(a: int, b: int, c: int, d: int, i: int)
    requires 0 <= a < 512 && 0 <= b < 512 && 0 <= c < 512 && 0 <= d < 512 && 0 <= i < 512
    ensures PathOf(Vrt(a, b, c, d) + 8 * i) == Path(a, b, c, d)
    ensures (Vrt(a, b, c, d) + 8 * i) % 4096 == 8 * i
  {
    var v := Vrt(a, b, c, d) + 8 * i;
    VrtValue(a, b, c, d);
    var s := if a > 255 then 0xFFFF else 0;
    var x4 := 512 * s + a;
    var x3 := 512 * x4 + b;
    var x2 := 512 * x3 + c;
    var x1 := 512 * x2 + d;
    Quotients(v, x4, x3, x2, x1);
    Digit(x4, s, a);
    Digit(x3, x4, b);
    Digit(x2, x3, c);
    Digit(x1, x2, d);
  }

  /** Slot 511 of the top table points back to the top table. */
  ghost predicate SelfMapped(m: Mem, cr3: int)
  {
    Points(Read(m, cr3, R_IDX)) && HwFrame(Read(m, cr3, R_IDX)) == cr3
  }

  /** The hardware walk of the address `_vrt_entryget` returns ends at exactly the table
      that the walk of v visits at that level. */
  lemma SelfMapReaches(m: Mem, cr3: int, v: int, level: int, i: int)
    requires SelfMapped(m, cr3) && 1 <= level <= 4 && 0 <= i < 512
    requires Table(m, cr3, PathOf(v), level).Some?
    ensures var x := Translate(m, cr3, VrtEntryGet(v, level) + 8 * i);
      x.Hit? && x.phys == Table(m, cr3, PathOf(v), level).value * 4096 + 8 * i
  {
    var p := PathOf(v);
    WalkReachesAll(m, cr3, p, level);
    var q := if level == 4 then Path(R_IDX, R_IDX, R_IDX, R_IDX)
             else if level == 3 then Path(R_IDX, R_IDX, R_IDX, p.i4)
             else if level == 2 then Path(R_IDX, R_IDX, p.i4, p.i3)
             else Path(R_IDX, p.i4, p.i3, p.i2);
    VrtPath(q.i4, q.i3, q.i2, q.i1, i);
    assert PathOf(VrtEntryGet(v, level) + 8 * i) == q;
    assert Table(m, cr3, q, 3) == Some(cr3);
    SelfMapTail(m, cr3, p, q, level);
  }

  lemma SelfMapTail(m: Mem, cr3: int, p: Path, q: Path, level: int)
    requires SelfMapped(m, cr3) && 1 <= level <= 4 && Table(m, cr3, p, level).Some?
    requires q == if level == 4 then Path(R_IDX, R_IDX, R_IDX, R_IDX)
             else if level == 3 then Path(R_IDX, R_IDX, R_IDX, p.i4)
             else if level == 2 then Path(R_IDX, R_IDX, p.i4, p.i3)
             else Path(R_IDX, p.i4, p.i3, p.i2)
    ensures Table(m, cr3, q, 3).Some? && Table(m, cr3, q, 2).Some? && Table(m, cr3, q, 1).Some?
    ensures Present(Entry(m, cr3, q, 1)) && Some(HwFrame(Entry(m, cr3, q, 1))) == Table(m, cr3, p, level)
  {
    WalkReachesAll(m, cr3, p, level);
    assert Table(m, cr3, q, 3) == Some(cr3);
    if level == 1 {
      assert Table(m, cr3, q, 2) == Table(m, cr3, p, 3);
      assert Table(m, cr3, q, 1) == Table(m, cr3, p, 2);
    } else {
      assert Table(m, cr3, q, 2) == Some(cr3);
      if level == 2 {
        assert Table(m, cr3, q, 1) == Table(m, cr3, p, 3);
      } else {
        assert Table(m, cr3, q, 1) == Some(cr3);
      }
    }
  }

  /** `PE_S_ADDR(phy) | PE_S_FLAGS(flgs)` for a page-aligned phy. */
  function LeafWord(phy: int, flgs: bv12): Word
  {
    Word(phy / 4096, flgs & 0x7FF)
  }

  /** `PE_V_ADDR(entry) | vrt & 0xfff` as a number: bit 11 stays with the address. */
  function QueryValue(e: Word, vrt: int): int
  {
    e.pfn * 4096 + if e.flags & 0x800 == 0 then vrt % 4096 else 2048 + vrt % 2048
  }

  predicate Canonical(v: int)
  {
    0 <= v < 0x8000_0000_0000 || 0xFFFF_8000_0000_0000 <= v < 0x1_0000_0000_0000_0000
  }

  lemma WordOf(t: int, i: int)
    requires 0 <= i < 512
    ensures (t * 4096 + 8 * i) / 4096 == t && (t * 4096 + 8 * i) % 4096 / 8 == i
  {}

  lemma SelRange(v: int, level: int)
    ensures 0 <= Sel(PathOf(v), level) < 512
  {}

  /** A frame the allocator can hand out as a table. */
  ghost predicate Usable(m: Mem, cr3: int, f: int)
  {
    0 <= f < 0x100_0000_0000 && Fresh(m, cr3, f)
  }

  ghost predicate Sound(m: Mem, cr3: int, free: seq<int>)
  {
    && Tree(m, cr3) && SelfMapped(m, cr3)
    && (forall i | 0 <= i < |free| :: Usable(m, cr3, free[i]))
    && (forall i, j | 0 <= i < j < |free| :: free[i] != free[j])
  }

  /** How addresses translate once the page of p has the leaf entry e. */
  ghost predicate Retranslated(m: Mem, m': Mem, cr3: int, p: Path, e: Word, w: int)
  {
    Ordinary(PathOf(w)) ==>
      Translate(m', cr3, w) ==
        if SamePath(p, PathOf(w), 0)
        then (if Present(e) then Hit(HwFrame(e) * 4096 + w % 4096, e) else Fault)
        else Translate(m, cr3, w)
  }

  /** Every address translates as before. */
  ghost predicate SameTranslation(m: Mem, m': Mem, cr3: int, w: int)
  {
    Ordinary(PathOf(w)) ==> Translate(m', cr3, w) == Translate(m, cr3, w)
  }

  ghost predicate KeepsNoLarge(m: Mem, m': Mem, cr3: int, q: Path)
  {
    Ordinary(q) && NoLarge(m, cr3, q) ==> NoLarge(m', cr3, q)
  }

  /** A step that changes no translation, brings in no large page and takes no right away. */
  ghost predicate Silent(m: Mem, m': Mem, cr3: int)
  {
    && (forall w :: SameTranslation(m, m', cr3, w)) && (forall q :: KeepsNoLarge(m, m', cr3, q))
    && (forall q, k :: Kept(m, m', cr3, q, k))
  }

  /** A table entry of an ordinary walk is never the recursive entry. */
  lemma NotRecursive(m: Mem, cr3: int, p: Path, l: int, t: int)
    requires Tree(m, cr3) && 1 <= l <= 4 && Ordinary(p) && Table(m, cr3, p, l) == Some(t)
    ensures t != cr3 || Sel(p, l) != R_IDX
  {
    if t == cr3 {
      OnePath(m, cr3, p, l, p, 4);
    }
  }

  lemma SilentTrans(a: Mem, b: Mem, c: Mem, cr3: int)
    requires Silent(a, b, cr3) && Silent(b, c, cr3)
    ensures Silent(a, c, cr3)
  {
    forall w
      ensures SameTranslation(a, c, cr3, w)
    {
      assert SameTranslation(a, b, cr3, w) && SameTranslation(b, c, cr3, w);
    }
    forall q
      ensures KeepsNoLarge(a, c, cr3, q)
    {
      assert KeepsNoLarge(a, b, cr3, q) && KeepsNoLarge(b, c, cr3, q);
    }
    forall q, k
      ensures Kept(a, c, cr3, q, k)
    {
      assert Kept(a, b, cr3, q, k) && Kept(b, c, cr3, q, k);
      KeptTrans(a, b, c, cr3, q, k);
    }
  }

  /** Hanging the frame free[0] below an entry that is not present. */
  lemma AttachSound(m: Mem, m': Mem, cr3: int, free: seq<int>, p: Path, l: int, t: int)
    requires Sound(m, cr3, free) && |free| > 0 && 2 <= l <= 4 && Ordinary(p)
    requires Table(m, cr3, p, l) == Some(t) && !Present(Read(m, t, Sel(p, l)))
    requires Attached(m, m', t, Sel(p, l), free[0]) && Read(m', t, Sel(p, l)).flags & PE_RW != 0
    ensures Sound(m', cr3, free[1..]) && Silent(m, m', cr3)
    ensures Table(m', cr3, p, l - 1) == Some(free[0]) && Points(Entry(m', cr3, p, l))
  {
    var f := free[0];
    assert Usable(m, cr3, f);
    AttachTree(m, m', cr3, p, l, t, f);
    NotRecursive(m, cr3, p, l, t);
    assert NotVisited(m, cr3, p, 4, f);
    forall i | 0 <= i < |free[1..]|
      ensures Usable(m', cr3, free[1..][i])
    {
      assert Usable(m, cr3, free[i + 1]);
      AttachFresh(m, m', cr3, p, l, t, f, free[i + 1]);
    }
    forall w
      ensures SameTranslation(m, m', cr3, w)
    {
      if Ordinary(PathOf(w)) {
        AttachTranslate(m, m', cr3, p, l, t, f, w);
      }
    }
    forall q
      ensures KeepsNoLarge(m, m', cr3, q)
    {
      if Ordinary(q) && NoLarge(m, cr3, q) {
        AttachNoLarge(m, m', cr3, p, l, t, f, q);
      }
    }
    forall q, k
      ensures Kept(m, m', cr3, q, k)
    {
      AttachKept(m, m', cr3, p, l, t, f, q, k);
    }
    AttachTable(m, m', cr3, p, l, t, f, p, l - 1);
    AttachTable(m, m', cr3, p, l, t, f, p, l);
  }

  lemma SameTablesSound(m: Mem, m': Mem, cr3: int, free: seq<int>, t: int, i: int)
    requires Sound(m, cr3, free) && SameTables(m, m', cr3) && OneWord(m, m', t, i)
    requires t != cr3 || i != R_IDX
    ensures Sound(m', cr3, free)
  {
    SameTablesTree(m, m', cr3);
    forall k | 0 <= k < |free|
      ensures Usable(m', cr3, free[k])
    {
      assert Usable(m, cr3, free[k]);
      SameTablesFresh(m, m', cr3, free[k]);
    }
  }

  /** The user flag on the pointer that p selects at level l. */
  lemma FlagSound(m: Mem, m': Mem, cr3: int, free: seq<int>, p: Path, l: int, t: int)
    requires Sound(m, cr3, free) && 2 <= l <= 4 && Ordinary(p) && Table(m, cr3, p, l) == Some(t)
    requires OneWord(m, m', t, Sel(p, l))
    requires Points(Read(m, t, Sel(p, l))) && SameButUser(Read(m, t, Sel(p, l)), Read(m', t, Sel(p, l)))
    ensures Sound(m', cr3, free) && Silent(m, m', cr3) && SameTables(m, m', cr3)
  {
    SameButUserKeeps(Read(m, t, Sel(p, l)), Read(m', t, Sel(p, l)));
    FlagTables(m, m', cr3, t, Sel(p, l));
    NotRecursive(m, cr3, p, l, t);
    SameTablesSound(m, m', cr3, free, t, Sel(p, l));
    forall w
      ensures SameTranslation(m, m', cr3, w)
    {
      if Ordinary(PathOf(w)) {
        FlagTranslate(m, m', cr3, p, l, t, w);
      }
    }
    forall q
      ensures KeepsNoLarge(m, m', cr3, q)
    {
      if Ordinary(q) && NoLarge(m, cr3, q) {
        FlagNoLarge(m, m', cr3, t, Sel(p, l), q);
      }
    }
    forall q, k
      ensures Kept(m, m', cr3, q, k)
    {
      FlagKept(m, m', cr3, p, l, t, q, k);
    }
  }

  lemma LeafSound(m: Mem, m': Mem, cr3: int, free: seq<int>, p: Path, t: int)
    requires Sound(m, cr3, free) && Ordinary(p) && Table(m, cr3, p, 1) == Some(t)
    requires OneWord(m, m', t, Sel(p, 1))
    ensures Sound(m', cr3, free)
    ensures forall w :: Retranslated(m, m', cr3, p, Read(m', t, Sel(p, 1)), w)
    ensures forall q :: KeepsNoLarge(m, m', cr3, q)
    ensures forall q, k :: KeptBut(m, m', cr3, p, q, k)
    ensures Table(m', cr3, p, 1) == Some(t)
  {
    LeafTables(m, m', cr3, p, t);
    assert SameTable(m, m', cr3, p, 1);
    NotRecursive(m, cr3, p, 1, t);
    SameTablesSound(m, m', cr3, free, t, Sel(p, 1));
    forall w
      ensures Retranslated(m, m', cr3, p, Read(m', t, Sel(p, 1)), w)
    {
      if Ordinary(PathOf(w)) {
        LeafTranslate(m, m', cr3, p, t, w);
      }
    }
    forall q
      ensures KeepsNoLarge(m, m', cr3, q)
    {
      if Ordinary(q) && NoLarge(m, cr3, q) {
        LeafNoLarge(m, m', cr3, p, t, q);
      }
    }
    forall q, k
      ensures KeptBut(m, m', cr3, p, q, k)
    {
      LeafKept(m, m', cr3, p, t, q, k);
    }
  }

  lemma SilentThen(a: Mem, b: Mem, c: Mem, cr3: int, p: Path, e: Word)
    requires Silent(a, b, cr3)
    requires (forall w :: Retranslated(b, c, cr3, p, e, w)) && (forall q :: KeepsNoLarge(b, c, cr3, q))
    requires forall q, k :: KeptBut(b, c, cr3, p, q, k)
    ensures forall w :: Retranslated(a, c, cr3, p, e, w)
    ensures forall q :: KeepsNoLarge(a, c, cr3, q)
    ensures forall q, k :: KeptBut(a, c, cr3, p, q, k)
  {
    forall w
      ensures Retranslated(a, c, cr3, p, e, w)
    {
      assert SameTranslation(a, b, cr3, w) && Retranslated(b, c, cr3, p, e, w);
    }
    forall q
      ensures KeepsNoLarge(a, c, cr3, q)
    {
      assert KeepsNoLarge(a, b, cr3, q) && KeepsNoLarge(b, c, cr3, q);
    }
    forall q, k
      ensures KeptBut(a, c, cr3, p, q, k)
    {
      assert Kept(a, b, cr3, q, k) && KeptBut(b, c, cr3, p, q, k);
      if Kept(b, c, cr3, q, k) {
        KeptTrans(a, b, c, cr3, q, k);
      }
    }
  }

  /** The user flag that an entry has, and those below it get. */
  lemma UserStep(m: Mem, m': Mem, cr3: int, p: Path, level: int)
    requires 2 <= level <= 4 && Ordinary(p) && Kept(m, m', cr3, p, level)
    requires Points(Entry(m, cr3, p, level)) && Entry(m, cr3, p, level).flags & PE_US != 0
    requires UserAbove(m', cr3, p, level - 1)
    ensures UserAbove(m', cr3, p, level)
  {
    SameButUserKeeps(Entry(m, cr3, p, level), Entry(m', cr3, p, level));
  }

  lemma Nested(v: int)
    ensures v / 0x1000 / 512 == v / 0x20_0000
    ensures v / 0x20_0000 / 512 == v / 0x4000_0000
    ensures v / 0x4000_0000 / 512 == v / 0x80_0000_0000
    ensures v / 0x80_0000_0000 / 512 == v / 0x1_0000_0000_0000
  {
    NestedDiv(v, 0x1000);
    NestedDiv(v, 0x20_0000);
    NestedDiv(v, 0x4000_0000);
    NestedDiv(v, 0x80_0000_0000);
  }

  lemma NestedDiv(v: int, d: int)
    requires d == 0x1000 || d == 0x20_0000 || d == 0x4000_0000 || d == 0x80_0000_0000
    ensures v / d / 512 == v / (d * 512)
  {
    if d == 0x1000 {
      assert v / 0x1000 / 512 == v / 0x20_0000;
    } else if d == 0x20_0000 {
      assert v / 0x20_0000 / 512 == v / 0x4000_0000;
    } else if d == 0x4000_0000 {
      assert v / 0x4000_0000 / 512 == v / 0x80_0000_0000;
    } else {
      assert v / 0x80_0000_0000 / 512 == v / 0x1_0000_0000_0000;
    }
  }

  lemma PathDigits(v: int)
    requires Canonical(v)
    ensures var p, n := PathOf(v), v / 4096;
      n == (if v < 0x8000_0000_0000 then 0 else 0xFFFF) * 0x10_0000_0000
           + p.i4 * 0x800_0000 + p.i3 * 0x4_0000 + p.i2 * 0x200 + p.i1
    ensures v < 0x8000_0000_0000 <==> PathOf(v).i4 < 256
  {
    Nested(v);
    var n1, n2, n3, n4 := v / 0x1000, v / 0x20_0000, v / 0x4000_0000, v / 0x80_0000_0000;
    assert n1 == 512 * n2 + n1 % 512 && n2 == 512 * n3 + n2 % 512;
    assert n3 == 512 * n4 + n3 % 512;
    TopDigit(v);
  }

  lemma TopDigit(v: int)
    requires Canonical(v)
    ensures var n4, low := v / 0x80_0000_0000, v < 0x8000_0000_0000;
      && n4 == 512 * (if low then 0 else 0xFFFF) + n4 % 512
      && (low <==> n4 % 512 < 256)
  {}

  /** Two canonical addresses follow the same path exactly when they are on one page. */
  lemma SamePage(v: int, w: int)
    requires Canonical(v) && Canonical(w)
    ensures SamePath(PathOf(v), PathOf(w), 0) <==> v / 4096 == w / 4096
  {
    PathDigits(v);
    PathDigits(w);
    var p, q := PathOf(v), PathOf(w);
    assert SamePath(p, q, 0) <==> p == q by {
      assert SamePath(p, q, 0) ==> Sel(p, 4) == Sel(q, 4) && Sel(p, 3) == Sel(q, 3);
      assert SamePath(p, q, 0) ==> Sel(p, 2) == Sel(q, 2) && Sel(p, 1) == Sel(q, 1);
    }
  }

  /** How a canonical address translates after n pages at vrt are mapped to phy. */
  ghost predicate RangeMapped(m: Mem, m': Mem, cr3: int, phy: int, vrt: int, n: int, flgs: bv12, w: int)
  {
    Canonical(w) && Ordinary(PathOf(w)) ==>
      Translate(m', cr3, w) ==
        if vrt <= w < vrt + n * 4096
        then Hit(phy + (w - vrt), LeafWord(phy + (w - vrt) / 4096 * 4096, flgs))
        else Translate(m, cr3, w)
  }

  lemma RangeStep(a: Mem, b: Mem, c: Mem, cr3: int, phy: int, vrt: int, n: nat, flgs: bv12, w: int)
    requires phy % 4096 == 0 && vrt % 4096 == 0 && 0 <= phy && phy + (n + 1) * 4096 <= 0x10_0000_0000_0000
    requires Canonical(vrt + n * 4096) && flgs & PE_P != 0
    requires RangeMapped(a, b, cr3, phy, vrt, n, flgs, w)
    requires Retranslated(b, c, cr3, PathOf(vrt + n * 4096), LeafWord(phy + n * 4096, flgs), w)
    ensures RangeMapped(a, c, cr3, phy, vrt, n + 1, flgs, w)
  {
    if Canonical(w) && Ordinary(PathOf(w)) {
      SamePage(vrt + n * 4096, w);
      PageOffset(vrt, n, w);
      var e := LeafWord(phy + n * 4096, flgs);
      LeafAddress(phy, n, flgs);
    }
  }

  /** w lies on page n after the aligned address v exactly when its page number says so. */
  lemma PageOffset(v: int, n: int, w: int)
    requires v % 4096 == 0
    ensures (v + n * 4096) / 4096 == w / 4096 <==> v + n * 4096 <= w < v + (n + 1) * 4096
    ensures v + n * 4096 <= w < v + (n + 1) * 4096 ==> (w - v) / 4096 == n && w % 4096 == w - v - n * 4096
  {}

  lemma LeafAddress(phy: int, n: nat, flgs: bv12)
    requires phy % 4096 == 0 && 0 <= phy && phy + (n + 1) * 4096 <= 0x10_0000_0000_0000
    ensures var e := LeafWord(phy + n * 4096, flgs);
      && HwFrame(e) * 4096 == phy + n * 4096 && (flgs & PE_P != 0 ==> Present(e))
      && (forall w :: QueryValue(e, w) == phy + n * 4096 + w % 4096)
  {
    assert flgs & 0x7FF & PE_P == flgs & PE_P;
    assert flgs & 0x7FF & 0x800 == 0;
  }

  // ---------- rights in a mapped range ----------

  /** Who may do what with a canonical address after n pages at vrt are mapped. Inside the range a user may use
      it exactly if the flags say so, and it may be written exactly if they and the tables that were there
      before say so. A mapped address outside loses no right, and gets none to write. */
  ghost predicate RangeRights(m: Mem, m': Mem, cr3: int, vrt: int, n: int, flgs: bv12, w: int)
  {
    var q := PathOf(w);
    Canonical(w) && Ordinary(q) ==>
      if vrt <= w < vrt + n * 4096 then
        && (Allows(m', cr3, q, PE_US) <==> flgs & PE_US != 0)
        && (Allows(m', cr3, q, PE_RW) <==> flgs & PE_RW != 0 && TablesAllow(m, cr3, q, PE_RW))
      else Translate(m, cr3, w).Hit? ==>
        && (Allows(m, cr3, q, PE_US) ==> Allows(m', cr3, q, PE_US))
        && (Allows(m, cr3, q, PE_RW) <==> Allows(m', cr3, q, PE_RW))
  }

  /** Tables that could all be written through still can. */
  ghost predicate KeepsTables(m: Mem, m': Mem, cr3: int, q: Path)
  {
    Ordinary(q) && TablesAllow(m, cr3, q, PE_RW) ==> TablesAllow(m', cr3, q, PE_RW)
  }

  ghost predicate UpperKept(m: Mem, m': Mem, cr3: int, q: Path, k: int)
  {
    k >= 2 ==> Kept(m, m', cr3, q, k)
  }

  /** Inside the range the last-level entry is the new one, outside it is as before. */
  ghost predicate RangeGranted(m: Mem, m': Mem, cr3: int, phy: int, vrt: int, n: int, flgs: bv12, w: int)
  {
    Canonical(w) && Ordinary(PathOf(w)) ==>
      if vrt <= w < vrt + n * 4096
      then Granted(m', cr3, PathOf(w), LeafWord(phy + (w - vrt) / 4096 * 4096, flgs))
      else Kept(m, m', cr3, PathOf(w), 1)
  }

  /** All that is known after n pages. */
  ghost predicate RangeDone(m: Mem, m': Mem, cr3: int, phy: int, vrt: int, n: int, flgs: bv12)
  {
    && (forall w :: RangeMapped(m, m', cr3, phy, vrt, n, flgs, w))
    && (forall q :: KeepsNoLarge(m, m', cr3, q))
    && (forall q, k :: UpperKept(m, m', cr3, q, k))
    && (forall w :: RangeGranted(m, m', cr3, phy, vrt, n, flgs, w))
  }

  /** The entry has the flags given, whichever of the eleven are asked for, and not bit 11. */
  lemma LeafFlags(phy: int, flgs: bv12, bits: bv12)
    ensures LeafWord(phy, flgs).flags & 0x800 == 0
    ensures bits & 0x800 == 0 ==> LeafWord(phy, flgs).flags & bits == flgs & bits
  {}

  lemma LeafRights(phy: int, flgs: bv12)
    ensures var e := LeafWord(phy, flgs);
      (e.flags & PE_US != 0 <==> flgs & PE_US != 0) && (e.flags & PE_RW != 0 <==> flgs & PE_RW != 0)
  {
    LeafFlags(phy, flgs, PE_US);
    LeafFlags(phy, flgs, PE_RW);
  }

  lemma LeafGranted(m: Mem, cr3: int, p: Path, phy: int, flgs: bv12)
    requires Table(m, cr3, p, 1).Some? && Entry(m, cr3, p, 1) == LeafWord(phy, flgs)
    requires flgs & PE_US != 0 ==> UserAbove(m, cr3, p, 4)
    ensures Granted(m, cr3, p, LeafWord(phy, flgs))
  {
    LeafRights(phy, flgs);
  }

  lemma SamePathIs(p: Path, q: Path)
    requires SamePath(p, q, 0)
    ensures p == q
  {
    assert Sel(p, 4) == Sel(q, 4) && Sel(p, 3) == Sel(q, 3) && Sel(p, 2) == Sel(q, 2) && Sel(p, 1) == Sel(q, 1);
  }

  lemma GrantStep(a: Mem, b: Mem, c: Mem, cr3: int, phy: int, vrt: int, n: nat, flgs: bv12, p: Path, w: int)
    requires phy % 4096 == 0 && vrt % 4096 == 0 && Canonical(vrt + n * 4096) && p == PathOf(vrt + n * 4096)
    requires RangeGranted(a, b, cr3, phy, vrt, n, flgs, w)
    requires forall q, k :: KeptBut(b, c, cr3, p, q, k)
    requires Granted(c, cr3, p, LeafWord(phy + n * 4096, flgs))
    ensures RangeGranted(a, c, cr3, phy, vrt, n + 1, flgs, w)
  {
    if Canonical(w) && Ordinary(PathOf(w)) {
      var q := PathOf(w);
      SamePage(vrt + n * 4096, w);
      PageOffset(vrt, n, w);
      if SamePath(p, q, 0) {
        SamePathIs(p, q);
      } else {
        forall k | 1 <= k <= 4
          ensures Kept(b, c, cr3, q, k)
        {
          assert KeptBut(b, c, cr3, p, q, k);
        }
        if vrt <= w < vrt + n * 4096 {
          GrantedKept(b, c, cr3, q, LeafWord(phy + (w - vrt) / 4096 * 4096, flgs));
        } else {
          KeptTrans(a, b, c, cr3, q, 1);
        }
      }
    }
  }

  lemma RangeStart(m: Mem, cr3: int, phy: int, vrt: int, flgs: bv12)
    ensures RangeDone(m, m, cr3, phy, vrt, 0, flgs)
  {}

  /** One more page. */
  lemma RangeNext(a: Mem, b: Mem, c: Mem, cr3: int, phy: int, vrt: int, n: nat, flgs: bv12, p: Path, e: Word)
    requires phy % 4096 == 0 && vrt % 4096 == 0 && 0 <= phy && phy + (n + 1) * 4096 <= 0x10_0000_0000_0000
    requires Canonical(vrt + n * 4096) && flgs & PE_P != 0
    requires p == PathOf(vrt + n * 4096) && e == LeafWord(phy + n * 4096, flgs)
    requires RangeDone(a, b, cr3, phy, vrt, n, flgs)
    requires forall w :: Retranslated(b, c, cr3, p, e, w)
    requires forall q :: KeepsNoLarge(b, c, cr3, q)
    requires forall q, k :: KeptBut(b, c, cr3, p, q, k)
    requires Granted(c, cr3, p, e)
    ensures RangeDone(a, c, cr3, phy, vrt, n + 1, flgs)
  {
    var n1 := n + 1;
    forall w
      ensures RangeMapped(a, c, cr3, phy, vrt, n1, flgs, w)
      ensures RangeGranted(a, c, cr3, phy, vrt, n1, flgs, w)
    {
      assert RangeMapped(a, b, cr3, phy, vrt, n, flgs, w) && RangeGranted(a, b, cr3, phy, vrt, n, flgs, w);
      assert Retranslated(b, c, cr3, p, e, w);
      RangeStep(a, b, c, cr3, phy, vrt, n, flgs, w);
      GrantStep(a, b, c, cr3, phy, vrt, n, flgs, p, w);
    }
    forall q
      ensures KeepsNoLarge(a, c, cr3, q)
    {
      assert KeepsNoLarge(a, b, cr3, q) && KeepsNoLarge(b, c, cr3, q);
    }
    forall q, k
      ensures UpperKept(a, c, cr3, q, k)
    {
      assert UpperKept(a, b, cr3, q, k) && KeptBut(b, c, cr3, p, q, k);
      if k >= 2 {
        KeptTrans(a, b, c, cr3, q, k);
      }
    }
  }

  lemma DoneRights(m: Mem, m': Mem, cr3: int, phy: int, vrt: int, n: nat, flgs: bv12, w: int)
    requires RangeDone(m, m', cr3, phy, vrt, n, flgs)
    ensures RangeRights(m, m', cr3, vrt, n, flgs, w)
  {
    var q := PathOf(w);
    if Canonical(w) && Ordinary(q) {
      assert RangeGranted(m, m', cr3, phy, vrt, n, flgs, w);
      forall k | 2 <= k <= 4
        ensures Kept(m, m', cr3, q, k)
      {
        assert UpperKept(m, m', cr3, q, k);
      }
      if vrt <= w < vrt + n * 4096 {
        var page := phy + (w - vrt) / 4096 * 4096;
        GrantedRights(m, m', cr3, q, LeafWord(page, flgs));
        LeafRights(page, flgs);
      } else if Translate(m, cr3, w).Hit? {
        RightsKept(m, m', cr3, w);
      }
    }
  }

  lemma DoneTables(m: Mem, m': Mem, cr3: int, phy: int, vrt: int, n: nat, flgs: bv12, q: Path)
    requires RangeDone(m, m', cr3, phy, vrt, n, flgs)
    ensures KeepsTables(m, m', cr3, q)
  {
    if Ordinary(q) {
      forall k | 2 <= k <= 4
        ensures Kept(m, m', cr3, q, k)
      {
        assert UpperKept(m, m', cr3, q, k);
      }
      TablesKept(m, m', cr3, q);
    }
  }

  lemma DoneAll(m: Mem, m': Mem, cr3: int, phy: int, vrt: int, n: nat, flgs: bv12)
    requires RangeDone(m, m', cr3, phy, vrt, n, flgs)
    ensures forall w :: RangeRights(m, m', cr3, vrt, n, flgs, w)
    ensures forall q :: KeepsTables(m, m', cr3, q)
  {
    forall w
      ensures RangeRights(m, m', cr3, vrt, n, flgs, w)
    {
      DoneRights(m, m', cr3, phy, vrt, n, flgs, w);
    }
    forall q
      ensures KeepsTables(m, m', cr3, q)
    {
      DoneTables(m, m', cr3, phy, vrt, n, flgs, q);
    }
  }

  /** What vmap_query returns inside a mapped range. */
  lemma RangeQueries(m: Mem, m': Mem, cr3: int, phy: int, vrt: int, n: nat, flgs: bv12, w: int)
    requires phy % 4096 == 0 && vrt % 4096 == 0 && 0 <= phy && phy + n * 4096 <= 0x10_0000_0000_0000
    requires RangeMapped(m, m', cr3, phy, vrt, n, flgs, w)
    requires Canonical(w) && Ordinary(PathOf(w)) && vrt <= w < vrt + n * 4096
    ensures var x := Translate(m', cr3, w);
      x.Hit? && x.phys == phy + (w - vrt) && QueryValue(x.leaf, w) == phy + (w - vrt)
  {
    var k := PageWithin(vrt, n, w);
    LeafQuery(phy, k, flgs, w);
  }

  lemma PageWithin(vrt: int, n: nat, w: int) returns (k: nat)
    requires vrt % 4096 == 0 && vrt <= w < vrt + n * 4096
    ensures k < n && k == (w - vrt) / 4096 && w - vrt == k * 4096 + w % 4096
  {
    k := (w - vrt) / 4096;
    PageOffset(vrt, k, w);
  }

  lemma LeafQuery(phy: int, k: nat, flgs: bv12, w: int)
    requires phy % 4096 == 0 && 0 <= phy && phy + (k + 1) * 4096 <= 0x10_0000_0000_0000
    ensures QueryValue(LeafWord(phy + k * 4096, flgs), w) == phy + k * 4096 + w % 4096
  {
    LeafAddress(phy, k, flgs);
  }

  /** A top table that holds nothing but its recursive entry. */
  lemma {:induction false} BareTable(cr3: int, q: Path, k: int)
    requires 1 <= k <= 4 && Ordinary(q)
    ensures Table(map[(cr3, R_IDX) := Word(cr3, PE_RW | PE_P)], cr3, q, k) == if k == 4 then Some(cr3) else None
    decreases 4 - k
  {
    if k >= 4 {
    } else {
      BareTable(cr3, q, k + 1);
    }
  }

  lemma BareSound(cr3: int, free: seq<int>)
    requires 0 <= cr3 < 0x100_0000_0000 && cr3 !in free
    requires forall i | 0 <= i < |free| :: 0 <= free[i] < 0x100_0000_0000
    requires forall i, j | 0 <= i < j < |free| :: free[i] != free[j]
    ensures Sound(map[(cr3, R_IDX) := Word(cr3, PE_RW | PE_P)], cr3, free)
  {
    var m := map[(cr3, R_IDX) := Word(cr3, PE_RW | PE_P)];
    forall p, l, q, k
      ensures Separate(m, cr3, p, l, q, k)
    {
      if 1 <= l <= 4 && 1 <= k <= 4 && Ordinary(p) && Ordinary(q) {
        BareTable(cr3, p, l);
        BareTable(cr3, q, k);
      }
    }
    forall i | 0 <= i < |free|
      ensures Usable(m, cr3, free[i])
    {
      forall q, k
        ensures NotVisited(m, cr3, q, k, free[i])
      {
        if 1 <= k <= 4 && Ordinary(q) {
          BareTable(cr3, q, k);
        }
      }
    }
  }

  /** It maps nothing outside slot 511, and has no large page and no table there. */
  lemma BareFaults(cr3: int)
    ensures var m := map[(cr3, R_IDX) := Word(cr3, PE_RW | PE_P)];
      forall v | Ordinary(PathOf(v)) :: NoLarge(m, cr3, PathOf(v)) && Translate(m, cr3, v) == Fault
        && TablesAllow(m, cr3, PathOf(v), PE_RW)
  {
    var m := map[(cr3, R_IDX) := Word(cr3, PE_RW | PE_P)];
    forall v | Ordinary(PathOf(v))
      ensures NoLarge(m, cr3, PathOf(v)) && Translate(m, cr3, v) == Fault && TablesAllow(m, cr3, PathOf(v), PE_RW)
    {
      forall k | 1 <= k <= 4
        ensures Table(m, cr3, PathOf(v), k) == (if k == 4 then Some(cr3) else None)
      {
        BareTable(cr3, PathOf(v), k);
      }
      forall k | 2 <= k <= 4
        ensures Entry(m, cr3, PathOf(v), k) == ZERO
      {
        assert Table(m, cr3, PathOf(v), k) == (if k == 4 then Some(cr3) else None);
      }
    }
  }

  /** An empty frame that is no table. */
  ghost predicate Blank(m: Mem, cr3: int, u: int)
  {
    Fresh(m, cr3, u) && forall j :: Read(m, u, j) == ZERO
  }

  /** And its only table is the top one. */
  lemma BareFresh(cr3: int)
    ensures var m := map[(cr3, R_IDX) := Word(cr3, PE_RW | PE_P)];
      forall u | u != cr3 :: Blank(m, cr3, u)
  {
    var m := map[(cr3, R_IDX) := Word(cr3, PE_RW | PE_P)];
    forall u, q, k | u != cr3
      ensures NotVisited(m, cr3, q, k, u)
    {
      if 1 <= k <= 4 && Ordinary(q) {
        BareTable(cr3, q, k);
      }
    }
  }

  /** A frame that is no table and is not handed out stays what it is. */
  ghost predicate Quiet(m: Mem, m': Mem, cr3: int, free: seq<int>, u: int)
  {
    Fresh(m, cr3, u) && u !in free ==> Fresh(m', cr3, u) && forall j :: Read(m', u, j) == Read(m, u, j)
  }

  lemma QuietBlank(m: Mem, m': Mem, cr3: int, free: seq<int>, u: int)
    requires Blank(m, cr3, u) && Quiet(m, m', cr3, free, u) && u !in free
    ensures Blank(m', cr3, u)
  {}

  lemma AttachQuiet(m: Mem, m': Mem, cr3: int, free: seq<int>, p: Path, l: int, t: int)
    requires Sound(m, cr3, free) && |free| > 0 && 2 <= l <= 4 && Ordinary(p)
    requires Table(m, cr3, p, l) == Some(t) && !Present(Read(m, t, Sel(p, l)))
    requires Attached(m, m', t, Sel(p, l), free[0])
    ensures forall u :: Quiet(m, m', cr3, free, u)
  {
    forall u
      ensures Quiet(m, m', cr3, free, u)
    {
      if Fresh(m, cr3, u) && u !in free {
        assert Usable(m, cr3, free[0]);
        AttachFresh(m, m', cr3, p, l, t, free[0], u);
        assert NotVisited(m, cr3, p, l, u);
      }
    }
  }

  lemma SameTablesQuiet(m: Mem, m': Mem, cr3: int, free: seq<int>, p: Path, l: int, t: int)
    requires SameTables(m, m', cr3) && 1 <= l <= 4 && Ordinary(p) && Table(m, cr3, p, l) == Some(t)
    requires OneWord(m, m', t, Sel(p, l))
    ensures forall u :: Quiet(m, m', cr3, free, u)
  {
    forall u
      ensures Quiet(m, m', cr3, free, u)
    {
      if Fresh(m, cr3, u) && u !in free {
        SameTablesFresh(m, m', cr3, u);
        assert NotVisited(m, cr3, p, l, u);
      }
    }
  }

  lemma QuietTrans(a: Mem, b: Mem, c: Mem, cr3: int, free: seq<int>, free': seq<int>)
    requires (forall u :: Quiet(a, b, cr3, free, u)) && (forall u :: Quiet(b, c, cr3, free', u))
    requires forall f | f in free' :: f in free
    ensures forall u :: Quiet(a, c, cr3, free, u)
  {
    forall u
      ensures Quiet(a, c, cr3, free, u)
    {
      assert Quiet(a, b, cr3, free, u) && Quiet(b, c, cr3, free', u);
    }
  }

  /** A page whose tables exist gets its entry written, and nothing else changes. */
  ghost predicate OnlyLeaf(m: Mem, m': Mem, cr3: int, p: Path, e: Word)
  {
    var t := Table(m, cr3, p, 1);
    t.Some? ==> OneWord(m, m', t.value, p.i1) && Read(m', t.value, p.i1) == e
  }

  class Mmu {
    var mem: Mem
    var cr3: int
    var free: seq<int>  // frames pmm_allocpages hands out, in order

    ghost predicate Valid()
      reads this
    {
      Sound(mem, cr3, free)
    }

    /** vmap_init on a top table that is otherwise empty. */
    constructor (cr3: int, free: seq<int>)
      requires 0 <= cr3 < 0x100_0000_0000 && cr3 !in free
      requires forall i | 0 <= i < |free| :: 0 <= free[i] < 0x100_0000_0000
      requires forall i, j | 0 <= i < j < |free| :: free[i] != free[j]
      ensures Valid() && this.cr3 == cr3 && this.free == free
      ensures forall v | Ordinary(PathOf(v)) :: NoLarge(mem, cr3, PathOf(v)) && Translate(mem, cr3, v) == Fault
      ensures forall v | Ordinary(PathOf(v)) :: TablesAllow(mem, cr3, PathOf(v), PE_RW)
      ensures forall u | u != cr3 :: Blank(mem, cr3, u)
    {
      this.cr3 := cr3;
      this.free := free;
      mem := map[(cr3, R_IDX) := Word(cr3, PE_RW | PE_P)];
      BareSound(cr3, free);
      BareFaults(cr3);
      BareFresh(cr3);
    }

    /** A load by the processor. */
    method Load(va: int) returns (w: Word)
      requires Translate(mem, cr3, va).Hit?
      ensures var a := Translate(mem, cr3, va).phys; w == Read(mem, a / 4096, a % 4096 / 8)
    {
      var a := Translate(mem, cr3, va).phys;
      w := Read(mem, a / 4096, a % 4096 / 8);
    }

    /** A store by the processor. */
    method Store(va: int, w: Word)
      requires Translate(mem, cr3, va).Hit?
      modifies this`mem
      ensures var a := old(Translate(mem, cr3, va).phys);
        mem == old(mem)[(a / 4096, a % 4096 / 8) := w]
    {
      var a := Translate(mem, cr3, va).phys;
      mem := mem[(a / 4096, a % 4096 / 8) := w];
    }

    /** `tab[idx]` for the table of vrt at a level, read through the recursive mapping. */
    method LoadEntry(tab: int, vrt: int, level: int) returns (w: Word)
      requires SelfMapped(mem, cr3) && 1 <= level <= 4 && tab == VrtEntryGet(vrt, level)
      requires Table(mem, cr3, PathOf(vrt), level).Some?
      ensures w == Entry(mem, cr3, PathOf(vrt), level)
    {
      var idx := Sel(PathOf(vrt), level);
      SelRange(vrt, level);
      SelfMapReaches(mem, cr3, vrt, level, idx);
      WordOf(Table(mem, cr3, PathOf(vrt), level).value, idx);
      w := Load(tab + 8 * idx);
    }

    /** `tab[idx] = w` for the table of vrt at a level. */
    method StoreEntry(tab: int, vrt: int, level: int, w: Word)
      requires SelfMapped(mem, cr3) && 1 <= level <= 4 && tab == VrtEntryGet(vrt, level)
      requires Table(mem, cr3, PathOf(vrt), level).Some?
      modifies this`mem
      ensures var t, i := old(Table(mem, cr3, PathOf(vrt), level).value), Sel(PathOf(vrt), level);
        OneWord(old(mem), mem, t, i) && Read(mem, t, i) == w
    {
      var idx := Sel(PathOf(vrt), level);
      SelRange(vrt, level);
      SelfMapReaches(mem, cr3, vrt, level, idx);
      WordOf(Table(mem, cr3, PathOf(vrt), level).value, idx);
      Store(tab + 8 * idx, w);
    }

    /** `memset(tab, 0, PAGE_SIZ)`: the page of the table of vrt at a level. */
    method ClearTable(tab: int, vrt: int, level: int)
      requires SelfMapped(mem, cr3) && 1 <= level <= 4 && tab == VrtEntryGet(vrt, level)
      requires Table(mem, cr3, PathOf(vrt), level).Some?
      modifies this`mem
      ensures var f := old(Table(mem, cr3, PathOf(vrt), level).value);
        && (forall j :: Read(mem, f, j) == ZERO)
        && (forall u, j | u != f :: Read(mem, u, j) == Read(old(mem), u, j))
    {
      SelfMapReaches(mem, cr3, vrt, level, 0);
      WordOf(Table(mem, cr3, PathOf(vrt), level).value, 0);
      var f := Translate(mem, cr3, tab + 8 * 0).phys / 4096;
      mem := map k | k in mem :: if k.0 == f then ZERO else mem[k];
    }

    /** pmm_allocpages(1) */
    method AllocFrame() returns (f: int)
      requires |free| > 0
      modifies this`free
      ensures f == old(free)[0] && free == old(free)[1..]
    {
      f := free[0];
      free := free[1..];
    }

    /** The part of _map_walk that makes the next table exist. */
    method EnsureTable(tab: int, vrt: int, level: int)
      requires Valid() && 2 <= level <= 4 && tab == VrtEntryGet(vrt, level) && |free| > 0
      requires Ordinary(PathOf(vrt)) && NoLarge(mem, cr3, PathOf(vrt))
      requires Table(mem, cr3, PathOf(vrt), level).Some?
      modifies this`mem, this`free
      ensures Valid() && |free| >= |old(free)| - 1 && Silent(old(mem), mem, cr3)
      ensures Table(mem, cr3, PathOf(vrt), level).Some? && Table(mem, cr3, PathOf(vrt), level - 1).Some?
      ensures Points(Entry(mem, cr3, PathOf(vrt), level))
      ensures old(Table(mem, cr3, PathOf(vrt), level - 1)).Some? ==> mem == old(mem) && free == old(free)
      ensures (forall u :: Quiet(old(mem), mem, cr3, old(free), u)) && forall f | f in free :: f in old(free)
    {
      ghost var p, t := PathOf(vrt), Table(mem, cr3, PathOf(vrt), level).value;
      var e := LoadEntry(tab, vrt, level);
      if !Present(e) {
        assert Usable(mem, cr3, free[0]);
        NotRecursive(mem, cr3, p, level, t);
        assert NotVisited(mem, cr3, p, level, free[0]);
        var f := AllocFrame();
        StoreEntry(tab, vrt, level, Word(f, PE_RW | PE_P));
        WalkFrame(old(mem), mem, cr3, p, level, t, p, level);
        var next := VrtEntryGet(vrt, level - 1);
        ClearTable(next, vrt, level - 1);
        AttachSound(old(mem), mem, cr3, old(free), p, level, t);
        AttachQuiet(old(mem), mem, cr3, old(free), p, level, t);
      } else {
        assert Table(mem, cr3, p, level - 1).Some?;
      }
    }

    /** `if (flgs & PE_US) tab[idx] |= PE_US;` */
    method MarkUser(tab: int, vrt: int, level: int, flgs: bv12)
      requires Valid() && 2 <= level <= 4 && tab == VrtEntryGet(vrt, level) && Ordinary(PathOf(vrt))
      requires Table(mem, cr3, PathOf(vrt), level).Some? && Table(mem, cr3, PathOf(vrt), level - 1).Some?
      modifies this`mem
      ensures Valid() && Silent(old(mem), mem, cr3)
      ensures Table(mem, cr3, PathOf(vrt), level - 1).Some? && (flgs & PE_US == 0 ==> mem == old(mem))
      ensures Points(Entry(mem, cr3, PathOf(vrt), level))
      ensures flgs & PE_US != 0 ==> Entry(mem, cr3, PathOf(vrt), level).flags & PE_US != 0
      ensures forall u :: Quiet(old(mem), mem, cr3, free, u)
    {
      if flgs & PE_US != 0 {
        ghost var p, t := PathOf(vrt), Table(mem, cr3, PathOf(vrt), level).value;
        var e := LoadEntry(tab, vrt, level);
        StoreEntry(tab, vrt, level, e.(flags := e.flags | PE_US));
        UserFlag(e.flags);
        FlagSound(old(mem), mem, cr3, free, p, level, t);
        SameTablesQuiet(old(mem), mem, cr3, free, p, level, t);
        assert SameTable(old(mem), mem, cr3, p, level - 1) && SameTable(old(mem), mem, cr3, p, level);
      }
    }

    /** _map_walk with mode MAP_4K. */
    method MapWalk(phy: int, vrt: int, flgs: bv12, tab: int, level: int)
      requires Valid() && 1 <= level <= 4 && tab == VrtEntryGet(vrt, level) && |free| >= level - 1
      requires Ordinary(PathOf(vrt)) && NoLarge(mem, cr3, PathOf(vrt))
      requires Table(mem, cr3, PathOf(vrt), level).Some?
      modifies this`mem, this`free
      ensures Valid() && |free| >= |old(free)| - (level - 1)
      ensures forall w :: Retranslated(old(mem), mem, cr3, PathOf(vrt), LeafWord(phy, flgs), w)
      ensures forall q :: KeepsNoLarge(old(mem), mem, cr3, q)
      ensures forall q, k :: KeptBut(old(mem), mem, cr3, PathOf(vrt), q, k)
      ensures Table(mem, cr3, PathOf(vrt), 1).Some? && Entry(mem, cr3, PathOf(vrt), 1) == LeafWord(phy, flgs)
      ensures flgs & PE_US != 0 ==> UserAbove(mem, cr3, PathOf(vrt), level)
      ensures flgs & PE_US == 0 ==> OnlyLeaf(old(mem), mem, cr3, PathOf(vrt), LeafWord(phy, flgs))
      ensures flgs & PE_US == 0 && old(Table(mem, cr3, PathOf(vrt), 1)).Some? ==> free == old(free)
      ensures (forall u :: Quiet(old(mem), mem, cr3, old(free), u)) && forall f | f in free :: f in old(free)
      decreases level
    {
      ghost var p := PathOf(vrt);
      if Table(mem, cr3, p, 1).Some? {
        WalkReachesAll(mem, cr3, p, 1);
      }
      if level == 1 {
        StoreEntry(tab, vrt, level, LeafWord(phy, flgs));
        LeafSound(old(mem), mem, cr3, free, p, old(Table(mem, cr3, p, 1).value));
        LeafTables(old(mem), mem, cr3, p, old(Table(mem, cr3, p, 1).value));
        SameTablesQuiet(old(mem), mem, cr3, free, p, 1, old(Table(mem, cr3, p, 1).value));
        return;
      }
      EnsureTable(tab, vrt, level);
      ghost var m1 := mem;
      MarkUser(tab, vrt, level, flgs);
      SilentTrans(old(mem), m1, mem, cr3);
      assert KeepsNoLarge(old(mem), mem, cr3, p);
      QuietTrans(old(mem), m1, mem, cr3, old(free), free);
      ghost var m2, free2 := mem, free;
      var next := VrtEntryGet(vrt, level - 1);
      MapWalk(phy, vrt, flgs, next, level - 1);
      QuietTrans(old(mem), m2, mem, cr3, old(free), free2);
      SilentThen(old(mem), m2, mem, cr3, p, LeafWord(phy, flgs));
      assert KeptBut(m2, mem, cr3, p, p, level);
      if flgs & PE_US != 0 {
        UserStep(m2, mem, cr3, p, level);
      }
    }

    /** vmap_map with mode MAP_4K: num pages from vrt go to phy and up; every other
        canonical address outside slot 511 translates as before. */
    method VmapMap(phy0: int, vrt0: int, num0: nat, flgs: bv12)
      requires Valid() && |free| >= 3 * num0
      requires phy0 % 4096 == 0 && vrt0 % 4096 == 0 && 0 <= phy0 && phy0 + num0 * 4096 <= 0x10_0000_0000_0000
      requires flgs & PE_P != 0
      requires forall w | vrt0 <= w < vrt0 + num0 * 4096 ::
        Canonical(w) && Ordinary(PathOf(w)) && NoLarge(mem, cr3, PathOf(w))
      modifies this`mem, this`free
      ensures Valid() && |free| >= |old(free)| - 3 * num0
      ensures forall w :: RangeMapped(old(mem), mem, cr3, phy0, vrt0, num0, flgs, w)
      ensures forall w :: RangeRights(old(mem), mem, cr3, vrt0, num0, flgs, w)
      ensures forall q :: KeepsNoLarge(old(mem), mem, cr3, q) && KeepsTables(old(mem), mem, cr3, q)
      ensures (forall u :: Quiet(old(mem), mem, cr3, old(free), u)) && forall f | f in free :: f in old(free)
      ensures num0 == 1 && flgs & PE_US == 0 ==> OnlyLeaf(old(mem), mem, cr3, PathOf(vrt0), LeafWord(phy0, flgs))
      ensures num0 == 1 && flgs & PE_US == 0 && old(Table(mem, cr3, PathOf(vrt0), 1)).Some? ==> free == old(free)
    {
      var phy, vrt, num := phy0, vrt0, num0;
      ghost var n := 0;
      RangeStart(mem, cr3, phy0, vrt0, flgs);
      while num != 0
        invariant n + num == num0 && phy == phy0 + n * 4096 && vrt == vrt0 + n * 4096
        invariant Valid() && |free| >= |old(free)| - 3 * n
        invariant RangeDone(old(mem), mem, cr3, phy0, vrt0, n, flgs)
        invariant (forall u :: Quiet(old(mem), mem, cr3, old(free), u)) && forall f | f in free :: f in old(free)
        invariant n == 0 ==> mem == old(mem) && free == old(free)
        invariant n == 1 && flgs & PE_US == 0 ==> OnlyLeaf(old(mem), mem, cr3, PathOf(vrt0), LeafWord(phy0, flgs))
        invariant n == 1 && flgs & PE_US == 0 && old(Table(mem, cr3, PathOf(vrt0), 1)).Some? ==> free == old(free)
      {
        ghost var m1, n1, free1 := mem, n + 1, free;
        assert vrt0 <= vrt < vrt0 + num0 * 4096;
        assert KeepsNoLarge(old(mem), mem, cr3, PathOf(vrt));
        MapWalk(phy, vrt, flgs, VrtEntryGet(0, 4), 4);
        QuietTrans(old(mem), m1, mem, cr3, old(free), free1);
        LeafGranted(mem, cr3, PathOf(vrt), phy, flgs);
        RangeNext(old(mem), m1, mem, cr3, phy0, vrt0, n, flgs, PathOf(vrt), LeafWord(phy, flgs));
        phy, vrt, num, n := phy + 4096, vrt + 4096, num - 1, n1;
      }
      DoneAll(old(mem), mem, cr3, phy0, vrt0, num0, flgs);
    }

    /** _qry_walk: reads the same tables, and returns 0 for an address that is not mapped. */
    method QryWalk(vrt: int, tab: int, lv: int) returns (r: int)
      requires SelfMapped(mem, cr3) && 1 <= lv <= 4 && tab == VrtEntryGet(vrt, lv)
      requires Table(mem, cr3, PathOf(vrt), lv).Some? && NoLarge(mem, cr3, PathOf(vrt))
      ensures var x := Translate(mem, cr3, vrt);
        r == if x.Fault? then 0 else QueryValue(x.leaf, vrt)
      decreases lv
    {
      ghost var p := PathOf(vrt);
      WalkReachesAll(mem, cr3, p, lv);
      var e := LoadEntry(tab, vrt, lv);
      if !Present(e) {
        NotPresentFaults(mem, cr3, vrt, lv);
        return 0;
      }
      if lv == 1 {
        return QueryValue(e, vrt);
      }
      assert !LargeBit(Entry(mem, cr3, p, lv));
      r := QryWalk(vrt, VrtEntryGet(vrt, lv - 1), lv - 1);
    }

    /** vmap_query */
    method VmapQuery(vrt: int) returns (r: int)
      requires SelfMapped(mem, cr3) && NoLarge(mem, cr3, PathOf(vrt))
      ensures var x := Translate(mem, cr3, vrt);
        r == if x.Fault? then 0 else QueryValue(x.leaf, vrt)
    {
      r := QryWalk(vrt, VrtEntryGet(0, 4), 4);
    }

    /** vmap_map, and then vmap_query of any address on 4 KiB pages: inside the range it returns
        phy plus the offset, and elsewhere what it returned before. */
    method MapThenQuery(phy: int, vrt: int, num: nat, flgs: bv12, w: int) returns (r: int)
      requires Valid() && |free| >= 3 * num
      requires phy % 4096 == 0 && vrt % 4096 == 0 && 0 <= phy && phy + num * 4096 <= 0x10_0000_0000_0000
      requires flgs & PE_P != 0
      requires forall v | vrt <= v < vrt + num * 4096 ::
        Canonical(v) && Ordinary(PathOf(v)) && NoLarge(mem, cr3, PathOf(v))
      requires Canonical(w) && Ordinary(PathOf(w)) && NoLarge(mem, cr3, PathOf(w))
      modifies this`mem, this`free
      ensures Valid()
      ensures vrt <= w < vrt + num * 4096 ==> r == phy + (w - vrt)
      ensures !(vrt <= w < vrt + num * 4096) ==>
        var x := old(Translate(mem, cr3, w));
        r == if x.Fault? then 0 else QueryValue(x.leaf, w)
    {
      ghost var m0 := mem;
      VmapMap(phy, vrt, num, flgs);
      assert KeepsNoLarge(m0, mem, cr3, PathOf(w));
      assert RangeMapped(m0, mem, cr3, phy, vrt, num, flgs, w);
      r := VmapQuery(w);
      if vrt <= w < vrt + num * 4096 {
        RangeQueries(m0, mem, cr3, phy, vrt, num, flgs, w);
      }
    }
  }

  /** From an empty table: map n pages, then query any ordinary address. */
  method FreshMapQuery(root: int, free: seq<int>, phy: int, vrt: int, num: nat, flgs: bv12, w: int) returns (r: int)
    requires 0 <= root < 0x100_0000_0000 && root !in free && |free| >= 3 * num
    requires forall i | 0 <= i < |free| :: 0 <= free[i] < 0x100_0000_0000
    requires forall i, j | 0 <= i < j < |free| :: free[i] != free[j]
    requires phy % 4096 == 0 && vrt % 4096 == 0 && 0 <= phy && phy + num * 4096 <= 0x10_0000_0000_0000
    requires flgs & PE_P != 0 && Canonical(w) && Ordinary(PathOf(w))
    requires forall v | vrt <= v < vrt + num * 4096 :: Canonical(v) && Ordinary(PathOf(v))
    ensures r == if vrt <= w < vrt + num * 4096 then phy + (w - vrt) else 0
  {
    var mmu := new Mmu(root, free);
    r := mmu.MapThenQuery(phy, vrt, num, flgs, w);
  }
}
