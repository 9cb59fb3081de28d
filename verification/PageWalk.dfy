/** 4-level paging as the processor performs it (section 4.5 of the Intel SDM, Volume 3A).

A 64-bit entry is split at bit 12 into a page frame number and twelve flag bits,
and physical memory is a map from a frame and a word index to such words.
`Table` and `Translate` are the hardware walk; nothing here is about the kernel yet.
*/
module PageWalk {

  /** The 64-bit value pfn * 4096 + flags. */
  datatype Word = Word(pfn: int, flags: bv12)

  const ZERO := Word(0, 0)

  type Mem = map<(int, int), Word>

  datatype Option<T> = None | Some(value: T)

  /** Where an address leads: nowhere, or to a physical address through a leaf entry. */
  datatype Xlat = Fault | Hit(phys: int, leaf: Word)

  const PE_P: bv12 := 1
  const PE_RW: bv12 := 2
  const PE_US: bv12 := 4
  const PE_PS: bv12 := 0x80

  predicate Present(e: Word)
  {
    e.flags & PE_P != 0
  }

  /** Bit 7: a large page at levels 2 and 3, reserved at level 4. */
  predicate LargeBit(e: Word)
  {
    e.flags & PE_PS != 0
  }

  /** Bits 51 to 12 of an entry. */
  function HwFrame(e: Word): int
  {
    e.pfn % 0x100_0000_0000
  }

  /** The four groups of nine address bits that select entries. */
  datatype Path = Path(i4: int, i3: int, i2: int, i1: int)

  function Sel(p: Path, level: int): int
  {
    if level == 4 then p.i4 else if level == 3 then p.i3 else if level == 2 then p.i2 else p.i1
  }

  function PathOf(v: int): Path
  {
    Path(v / 0x80_0000_0000 % 512, v / 0x4000_0000 % 512, v / 0x20_0000 % 512, v / 0x1000 % 512)
  }

  function Read(m: Mem, t: int, i: int): Word
  {
    if (t, i) in m then m[(t, i)] else ZERO
  }

  predicate Points(e: Word)
  {
    Present(e) && !LargeBit(e)
  }

  /** The table that a walk along p visits at a level. */
  function Table(m: Mem, cr3: int, p: Path, level: int): Option<int>
    requires 1 <= level <= 4
    decreases 4 - level
  {
    if level == 4 then Some(cr3) else
    match Table(m, cr3, p, level + 1)
    case None => None
    case Some(t) =>
      var e := Read(m, t, Sel(p, level + 1));
      if Points(e) then Some(HwFrame(e)) else None
  }

  /** The entry that a walk along p reads at a level. */
  function Entry(m: Mem, cr3: int, p: Path, level: int): Word
    requires 1 <= level <= 4
  {
    match Table(m, cr3, p, level)
    case None => ZERO
    case Some(t) => Read(m, t, Sel(p, level))
  }

  /** A large page of n frames. */
  function Large(e: Word, n: int, v: int): Xlat
    requires n > 0
  {
    if !Present(e) || !LargeBit(e) then Fault
    else Hit(HwFrame(e) / n * n * 4096 + v % (n * 4096), e)
  }

  function Translate(m: Mem, cr3: int, v: int): Xlat
  {
    var p := PathOf(v);
    if Table(m, cr3, p, 3).None? then Fault
    else if Table(m, cr3, p, 2).None? then Large(Entry(m, cr3, p, 3), 0x40000, v)
    else if Table(m, cr3, p, 1).None? then Large(Entry(m, cr3, p, 2), 512, v)
    else
      var e := Entry(m, cr3, p, 1);
      if Present(e) then Hit(HwFrame(e) * 4096 + v % 4096, e) else Fault
  }

  /** The walk along p meets no large page. */
  ghost predicate NoLarge(m: Mem, cr3: int, p: Path)
  {
    forall k | 2 <= k <= 4 :: Present(Entry(m, cr3, p, k)) ==> !LargeBit(Entry(m, cr3, p, k))
  }

  // ---------- one entry changes ----------

  /** p and q select the same entries at every level above this one. */
  ghost predicate SamePath(p: Path, q: Path, level: int)
  {
    forall k | level < k <= 4 :: Sel(p, k) == Sel(q, k)
  }

  /** A path outside the slot of the recursive entry. */
  ghost predicate Ordinary(p: Path)
  {
    p.i4 != 511
  }

  ghost predicate Separate(m: Mem, cr3: int, p: Path, l: int, q: Path, k: int)
  {
    && 1 <= l <= 4 && 1 <= k <= 4 && Ordinary(p) && Ordinary(q)
    && Table(m, cr3, p, l).Some? && Table(m, cr3, p, l) == Table(m, cr3, q, k)
    ==> l == k && SamePath(p, q, l)
  }

  /** The tables form a tree: a table is visited at one level and one path only. */
  ghost predicate Tree(m: Mem, cr3: int)
  {
    forall p, l, q, k :: Separate(m, cr3, p, l, q, k)
  }

  lemma {:induction false} SamePathTable(m: Mem, cr3: int, p: Path, q: Path, level: int)
    requires 1 <= level <= 4 && SamePath(p, q, level)
    ensures Table(m, cr3, p, level) == Table(m, cr3, q, level)
    decreases 4 - level
  {
    if level >= 4 {
    } else {
      SamePathTable(m, cr3, p, q, level + 1);
    }
  }

  /** m' differs from m in one word at most. */
  ghost predicate OneWord(m: Mem, m': Mem, t: int, i: int)
  {
    forall u, j | u != t || j != i :: Read(m', u, j) == Read(m, u, j)
  }

  /** Writing the entry that p selects at level l changes no walk at or above that level,
      and no walk that selects another entry there. */
  lemma {:induction false} WalkFrame(m: Mem, m': Mem, cr3: int, p: Path, l: int, t: int, q: Path, k: int)
    requires Tree(m, cr3) && 1 <= l <= 4 && 1 <= k <= 4 && Ordinary(p) && Ordinary(q)
    requires Table(m, cr3, p, l) == Some(t) && OneWord(m, m', t, Sel(p, l))
    requires k >= l || !SamePath(p, q, l - 1)
    ensures Table(m', cr3, q, k) == Table(m, cr3, q, k)
    decreases 4 - k
  {
    if k >= 4 {
    } else {
      WalkFrame(m, m', cr3, p, l, t, q, k + 1);
      EntryFrame(m, m', cr3, p, l, t, q, k + 1);
    }
  }

  lemma OnePath(m: Mem, cr3: int, p: Path, l: int, q: Path, k: int)
    requires Tree(m, cr3) && 1 <= l <= 4 && 1 <= k <= 4 && Ordinary(p) && Ordinary(q)
    requires Table(m, cr3, p, l).Some? && Table(m, cr3, p, l) == Table(m, cr3, q, k)
    ensures l == k && SamePath(p, q, l)
  {
    assert Separate(m, cr3, p, l, q, k);
  }

  lemma EntryFrame(m: Mem, m': Mem, cr3: int, p: Path, l: int, t: int, q: Path, k: int)
    requires Tree(m, cr3) && 1 <= l <= 4 && 1 <= k <= 4 && Ordinary(p) && Ordinary(q)
    requires Table(m, cr3, p, l) == Some(t) && OneWord(m, m', t, Sel(p, l))
    requires k > l || !SamePath(p, q, l - 1)
    ensures Table(m, cr3, q, k).Some? ==>
      var u := Table(m, cr3, q, k).value; Read(m', u, Sel(q, k)) == Read(m, u, Sel(q, k))
  {
    if Table(m, cr3, q, k) == Some(t) {
      OnePath(m, cr3, p, l, q, k);
      StepPath(p, q, l);
    }
  }

  lemma StepPath(p: Path, q: Path, level: int)
    requires 1 <= level <= 4
    ensures SamePath(p, q, level - 1) <==> SamePath(p, q, level) && Sel(p, level) == Sel(q, level)
  {}

  ghost predicate NotVisited(m: Mem, cr3: int, q: Path, k: int, f: int)
  {
    1 <= k <= 4 && Ordinary(q) ==> Table(m, cr3, q, k) != Some(f)
  }

  /** No walk visits f as a table. */
  ghost predicate Fresh(m: Mem, cr3: int, f: int)
  {
    forall q, k :: NotVisited(m, cr3, q, k, f)
  }

  /** A change of flags that keeps the word a pointer to the same table keeps every walk. */
  lemma {:induction false} SamePointer(m: Mem, m': Mem, cr3: int, t: int, i: int, q: Path, k: int)
    requires OneWord(m, m', t, i) && 1 <= k <= 4
    requires Points(Read(m, t, i)) && Points(Read(m', t, i)) && HwFrame(Read(m, t, i)) == HwFrame(Read(m', t, i))
    ensures Table(m', cr3, q, k) == Table(m, cr3, q, k)
    decreases 4 - k
  {
    if k >= 4 {
    } else {
      SamePointer(m, m', cr3, t, i, q, k + 1);
    }
  }

  /** m' is m with a pointer to the zeroed frame f in the entry (t, i). */
  ghost predicate Attached(m: Mem, m': Mem, t: int, i: int, f: int)
  {
    && t != f && Points(Read(m', t, i)) && HwFrame(Read(m', t, i)) == f
    && (forall j :: Read(m', f, j) == ZERO)
    && (forall u, j | u != f && (u != t || j != i) :: Read(m', u, j) == Read(m, u, j))
  }

  /** A fresh table below an entry that was not present: the walks through that entry now
      find the new table, and no other walk changes. */
  lemma {:induction false} AttachTable(m: Mem, m': Mem, cr3: int, p: Path, l: int, t: int, f: int, q: Path, k: int)
    requires Tree(m, cr3) && 2 <= l <= 4 && 1 <= k <= 4 && Ordinary(p) && Ordinary(q)
    requires Table(m, cr3, p, l) == Some(t) && !Present(Read(m, t, Sel(p, l)))
    requires Fresh(m, cr3, f) && Attached(m, m', t, Sel(p, l), f)
    ensures Table(m', cr3, q, k) ==
            if k == l - 1 && SamePath(p, q, l - 1) then Some(f) else Table(m, cr3, q, k)
    decreases 4 - k
  {
    if k >= 4 {
    } else {
      AttachTable(m, m', cr3, p, l, t, f, q, k + 1);
      StepPath(p, q, l);
      if k + 1 == l - 1 && SamePath(p, q, l - 1) {
        AttachedBelow(m, cr3, p, l, t, q);
      } else if Table(m, cr3, q, k + 1) == Some(t) {
        OnePath(m, cr3, p, l, q, k + 1);
      }
      assert NotVisited(m, cr3, q, k + 1, f);
    }
  }

  lemma AttachedBelow(m: Mem, cr3: int, p: Path, l: int, t: int, q: Path)
    requires 3 <= l <= 4 && SamePath(p, q, l - 1)
    requires Table(m, cr3, p, l) == Some(t) && !Present(Read(m, t, Sel(p, l)))
    ensures Table(m, cr3, q, l - 1) == None && Table(m, cr3, q, l - 2) == None
  {
    StepPath(p, q, l);
    SamePathTable(m, cr3, p, q, l);
  }

  lemma AttachTree(m: Mem, m': Mem, cr3: int, p: Path, l: int, t: int, f: int)
    requires Tree(m, cr3) && 2 <= l <= 4 && Ordinary(p)
    requires Table(m, cr3, p, l) == Some(t) && !Present(Read(m, t, Sel(p, l)))
    requires Fresh(m, cr3, f) && Attached(m, m', t, Sel(p, l), f)
    ensures Tree(m', cr3)
  {
    forall a, x, b, y
      ensures Separate(m', cr3, a, x, b, y)
    {
      if 1 <= x <= 4 && 1 <= y <= 4 && Ordinary(a) && Ordinary(b)
         && Table(m', cr3, a, x).Some? && Table(m', cr3, a, x) == Table(m', cr3, b, y)
      {
        AttachOnePath(m, m', cr3, p, l, t, f, a, x, b, y);
      }
    }
  }

  lemma AttachOnePath(m: Mem, m': Mem, cr3: int, p: Path, l: int, t: int, f: int, a: Path, x: int, b: Path, y: int)
    requires Tree(m, cr3) && 2 <= l <= 4 && Ordinary(p)
    requires Table(m, cr3, p, l) == Some(t) && !Present(Read(m, t, Sel(p, l)))
    requires Fresh(m, cr3, f) && Attached(m, m', t, Sel(p, l), f)
    requires 1 <= x <= 4 && 1 <= y <= 4 && Ordinary(a) && Ordinary(b)
    requires Table(m', cr3, a, x).Some? && Table(m', cr3, a, x) == Table(m', cr3, b, y)
    ensures x == y && SamePath(a, b, x)
  {
    AttachTable(m, m', cr3, p, l, t, f, a, x);
    AttachTable(m, m', cr3, p, l, t, f, b, y);
    if Table(m', cr3, a, x) == Some(f) {
      assert NotVisited(m, cr3, a, x, f) && NotVisited(m, cr3, b, y, f);
    } else {
      OnePath(m, cr3, a, x, b, y);
    }
  }

  lemma AttachFresh(m: Mem, m': Mem, cr3: int, p: Path, l: int, t: int, f: int, g: int)
    requires Tree(m, cr3) && 2 <= l <= 4 && Ordinary(p)
    requires Table(m, cr3, p, l) == Some(t) && !Present(Read(m, t, Sel(p, l)))
    requires Fresh(m, cr3, f) && Attached(m, m', t, Sel(p, l), f)
    requires Fresh(m, cr3, g) && g != f
    ensures Fresh(m', cr3, g)
  {
    forall q, k
      ensures NotVisited(m', cr3, q, k, g)
    {
      if 1 <= k <= 4 && Ordinary(q) {
        AttachTable(m, m', cr3, p, l, t, f, q, k);
        assert NotVisited(m, cr3, q, k, g);
      }
    }
  }

  /** What a walk that does not use the changed word reads. */
  lemma AttachEntry(m: Mem, m': Mem, cr3: int, p: Path, l: int, t: int, f: int, q: Path, k: int)
    requires Tree(m, cr3) && 2 <= l <= 4 && 1 <= k <= 4 && Ordinary(p) && Ordinary(q)
    requires Table(m, cr3, p, l) == Some(t) && !Present(Read(m, t, Sel(p, l)))
    requires Fresh(m, cr3, f) && Attached(m, m', t, Sel(p, l), f)
    requires !SamePath(p, q, l - 1)
    ensures Entry(m', cr3, q, k) == Entry(m, cr3, q, k)
  {
    AttachTable(m, m', cr3, p, l, t, f, q, k);
    assert NotVisited(m, cr3, q, k, f);
    if Table(m, cr3, q, k) == Some(t) {
      OnePath(m, cr3, p, l, q, k);
      StepPath(p, q, l);
    }
  }

  /** A new, empty table changes no translation. */
  lemma AttachTranslate(m: Mem, m': Mem, cr3: int, p: Path, l: int, t: int, f: int, v: int)
    requires Tree(m, cr3) && 2 <= l <= 4 && Ordinary(p) && Ordinary(PathOf(v))
    requires Table(m, cr3, p, l) == Some(t) && !Present(Read(m, t, Sel(p, l)))
    requires Fresh(m, cr3, f) && Attached(m, m', t, Sel(p, l), f)
    ensures Translate(m', cr3, v) == Translate(m, cr3, v)
  {
    var q := PathOf(v);
    forall k | 1 <= k <= 3
      ensures Table(m', cr3, q, k) ==
              if k == l - 1 && SamePath(p, q, l - 1) then Some(f) else Table(m, cr3, q, k)
    {
      AttachTable(m, m', cr3, p, l, t, f, q, k);
    }
    if SamePath(p, q, l - 1) {
      SamePathTable(m, cr3, p, q, l);
      StepPath(p, q, l);
      NotPresentFaults(m, cr3, v, l);
      EmptyTableFaults(m', cr3, v, l - 1, f);
    } else {
      forall k | 1 <= k <= 3
        ensures Entry(m', cr3, q, k) == Entry(m, cr3, q, k)
      {
        AttachEntry(m, m', cr3, p, l, t, f, q, k);
      }
    }
  }

  lemma NotPresentFaults(m: Mem, cr3: int, v: int, l: int)
    requires 1 <= l <= 4 && Table(m, cr3, PathOf(v), l).Some? && !Present(Entry(m, cr3, PathOf(v), l))
    ensures Translate(m, cr3, v) == Fault
  {
    var p := PathOf(v);
    if l == 4 {
      assert Table(m, cr3, p, 3).None?;
    } else if l == 3 {
      assert Table(m, cr3, p, 2).None?;
    } else if l == 2 {
      assert Table(m, cr3, p, 1).None?;
    }
  }

  lemma EmptyTableFaults(m: Mem, cr3: int, v: int, l: int, f: int)
    requires 1 <= l <= 4 && Table(m, cr3, PathOf(v), l) == Some(f) && Read(m, f, Sel(PathOf(v), l)) == ZERO
    ensures Translate(m, cr3, v) == Fault
  {
    NotPresentFaults(m, cr3, v, l);
  }

  // ---------- a change that keeps every table ----------

  /** The walks of m and m' visit the same tables. */
  ghost predicate SameTable(m: Mem, m': Mem, cr3: int, q: Path, k: int)
  {
    1 <= k <= 4 && Ordinary(q) ==> Table(m', cr3, q, k) == Table(m, cr3, q, k)
  }

  ghost predicate SameTables(m: Mem, m': Mem, cr3: int)
  {
    forall q, k :: SameTable(m, m', cr3, q, k)
  }

  lemma SameTablesTree(m: Mem, m': Mem, cr3: int)
    requires SameTables(m, m', cr3) && Tree(m, cr3)
    ensures Tree(m', cr3)
  {
    forall a, x, b, y
      ensures Separate(m', cr3, a, x, b, y)
    {
      assert Separate(m, cr3, a, x, b, y) && SameTable(m, m', cr3, a, x) && SameTable(m, m', cr3, b, y);
    }
  }

  lemma SameTablesFresh(m: Mem, m': Mem, cr3: int, f: int)
    requires SameTables(m, m', cr3) && Fresh(m, cr3, f)
    ensures Fresh(m', cr3, f)
  {
    forall q, k
      ensures NotVisited(m', cr3, q, k, f)
    {
      assert NotVisited(m, cr3, q, k, f) && SameTable(m, m', cr3, q, k);
    }
  }

  /** More flags on a pointer: no table and no translation changes. */
  lemma FlagTables(m: Mem, m': Mem, cr3: int, t: int, i: int)
    requires OneWord(m, m', t, i)
    requires Points(Read(m, t, i)) && Points(Read(m', t, i)) && HwFrame(Read(m, t, i)) == HwFrame(Read(m', t, i))
    ensures SameTables(m, m', cr3)
  {
    forall q, k
      ensures SameTable(m, m', cr3, q, k)
    {
      if 1 <= k <= 4 {
        SamePointer(m, m', cr3, t, i, q, k);
      }
    }
  }

  lemma FlagTranslate(m: Mem, m': Mem, cr3: int, p: Path, l: int, t: int, v: int)
    requires Tree(m, cr3) && 2 <= l <= 4 && Ordinary(p) && Ordinary(PathOf(v))
    requires Table(m, cr3, p, l) == Some(t) && OneWord(m, m', t, Sel(p, l)) && SameTables(m, m', cr3)
    requires Points(Read(m, t, Sel(p, l)))
    ensures Translate(m', cr3, v) == Translate(m, cr3, v)
  {
    var q := PathOf(v);
    forall k | 1 <= k <= 4
      ensures Table(m', cr3, q, k) == Table(m, cr3, q, k)
      ensures Entry(m', cr3, q, k) == Entry(m, cr3, q, k) || (k == l && SamePath(p, q, l - 1))
    {
      assert SameTable(m, m', cr3, q, k);
      if Table(m, cr3, q, k) == Some(t) {
        OnePath(m, cr3, p, l, q, k);
        StepPath(p, q, l);
      }
    }
    StepPath(p, q, l);
    assert SamePath(p, q, l - 1) ==> Entry(m, cr3, q, l) == Read(m, t, Sel(p, l)) by {
      if SamePath(p, q, l - 1) {
        SamePathTable(m, cr3, p, q, l);
      }
    }
  }

  /** Writing the last-level entry of p: no table changes ... */
  lemma LeafTables(m: Mem, m': Mem, cr3: int, p: Path, t: int)
    requires Tree(m, cr3) && Ordinary(p) && Table(m, cr3, p, 1) == Some(t) && OneWord(m, m', t, Sel(p, 1))
    ensures SameTables(m, m', cr3)
  {
    forall q, k
      ensures SameTable(m, m', cr3, q, k)
    {
      if 1 <= k <= 4 && Ordinary(q) {
        WalkFrame(m, m', cr3, p, 1, t, q, k);
      }
    }
  }

  /** ... the page of p is translated by the new entry, and every other page as before. */
  lemma LeafTranslate(m: Mem, m': Mem, cr3: int, p: Path, t: int, v: int)
    requires Tree(m, cr3) && Ordinary(p) && Table(m, cr3, p, 1) == Some(t) && OneWord(m, m', t, Sel(p, 1))
    requires SameTables(m, m', cr3) && Ordinary(PathOf(v))
    ensures var e := Read(m', t, Sel(p, 1));
      Translate(m', cr3, v) ==
        if SamePath(p, PathOf(v), 0)
        then (if Present(e) then Hit(HwFrame(e) * 4096 + v % 4096, e) else Fault)
        else Translate(m, cr3, v)
  {
    var q := PathOf(v);
    forall k | 1 <= k <= 4
      ensures Table(m', cr3, q, k) == Table(m, cr3, q, k)
    {
      assert SameTable(m, m', cr3, q, k);
    }
    StepPath(p, q, 1);
    if SamePath(p, q, 0) {
      SamePathTable(m, cr3, p, q, 1);
      WalkReachesAll(m, cr3, q, 1);
    } else {
      forall k | 1 <= k <= 4
        ensures Entry(m', cr3, q, k) == Entry(m, cr3, q, k)
      {
        EntryFrame(m, m', cr3, p, 1, t, q, k);
      }
    }
  }

  /** A table at one level has tables at every level above it. */
  lemma {:induction false} WalkReachesAll(m: Mem, cr3: int, q: Path, level: int)
    requires 1 <= level <= 4 && Table(m, cr3, q, level).Some?
    ensures forall k | level <= k <= 4 :: Table(m, cr3, q, k).Some?
    decreases 4 - level
  {
    if level >= 4 {
    } else {
      WalkReachesAll(m, cr3, q, level + 1);
    }
  }

  // ---------- no large page appears ----------

  lemma AttachNoLarge(m: Mem, m': Mem, cr3: int, p: Path, l: int, t: int, f: int, q: Path)
    requires Tree(m, cr3) && 2 <= l <= 4 && Ordinary(p) && Ordinary(q) && NoLarge(m, cr3, q)
    requires Table(m, cr3, p, l) == Some(t) && !Present(Read(m, t, Sel(p, l)))
    requires Fresh(m, cr3, f) && Attached(m, m', t, Sel(p, l), f)
    ensures NoLarge(m', cr3, q)
  {
    forall k | 2 <= k <= 4
      ensures Present(Entry(m', cr3, q, k)) ==> !LargeBit(Entry(m', cr3, q, k))
    {
      AttachTable(m, m', cr3, p, l, t, f, q, k);
      if Table(m', cr3, q, k).Some? {
        var u := Table(m', cr3, q, k).value;
        assert NotVisited(m, cr3, q, k, f);
        if u != f && (u != t || Sel(q, k) != Sel(p, l)) {
          assert Entry(m', cr3, q, k) == Entry(m, cr3, q, k);
        }
      }
    }
  }

  lemma FlagNoLarge(m: Mem, m': Mem, cr3: int, t: int, i: int, q: Path)
    requires SameTables(m, m', cr3) && OneWord(m, m', t, i) && !LargeBit(Read(m', t, i))
    requires Ordinary(q) && NoLarge(m, cr3, q)
    ensures NoLarge(m', cr3, q)
  {
    forall k | 2 <= k <= 4
      ensures Present(Entry(m', cr3, q, k)) ==> !LargeBit(Entry(m', cr3, q, k))
    {
      assert SameTable(m, m', cr3, q, k);
      if Table(m, cr3, q, k).Some? && !(Table(m, cr3, q, k) == Some(t) && Sel(q, k) == i) {
        assert Entry(m', cr3, q, k) == Entry(m, cr3, q, k);
      }
    }
  }

  lemma LeafNoLarge(m: Mem, m': Mem, cr3: int, p: Path, t: int, q: Path)
    requires Tree(m, cr3) && Ordinary(p) && Table(m, cr3, p, 1) == Some(t) && OneWord(m, m', t, Sel(p, 1))
    requires SameTables(m, m', cr3) && Ordinary(q) && NoLarge(m, cr3, q)
    ensures NoLarge(m', cr3, q)
  {
    forall k | 2 <= k <= 4
      ensures Entry(m', cr3, q, k) == Entry(m, cr3, q, k)
    {
      assert SameTable(m, m', cr3, q, k);
      EntryFrame(m, m', cr3, p, 1, t, q, k);
    }
  }
}
