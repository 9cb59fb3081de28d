/** What an address may be used for (section 4.6 of the Intel SDM, Volume 3A).

The processor grants user access, or write access, only when every entry the walk reads has the flag.
*/
module PageRights {
  import opened PageWalk

  /** Every entry that the walk along q reads has the flag. */
  ghost predicate Allows(m: Mem, cr3: int, q: Path, bit: bv12)
  {
    forall k | 1 <= k <= 4 && Table(m, cr3, q, k).Some? :: Entry(m, cr3, q, k).flags & bit != 0
  }

  /** Every entry above the last level that is there has the flag. */
  ghost predicate TablesAllow(m: Mem, cr3: int, q: Path, bit: bv12)
  {
    forall k | 2 <= k <= 4 && Present(Entry(m, cr3, q, k)) :: Entry(m, cr3, q, k).flags & bit != 0
  }

  /** A last-level entry is the same. One above it that was there is the same but for the user flag, which it
      may have got; and a new one may be written through. */
  ghost predicate Kept(m: Mem, m': Mem, cr3: int, q: Path, k: int)
  {
    Ordinary(q) && 1 <= k <= 4 ==>
      var e, e' := Entry(m, cr3, q, k), Entry(m', cr3, q, k);
      if k == 1 then e' == e
      else if Present(e) then SameButUser(e, e')
      else Present(e') ==> e'.flags & PE_RW != 0
  }

  predicate SameButUser(e: Word, e': Word)
  {
    e'.pfn == e.pfn && (e'.flags == e.flags || e'.flags == e.flags | PE_US)
  }

  /** All but the last-level entry of p. */
  ghost predicate KeptBut(m: Mem, m': Mem, cr3: int, p: Path, q: Path, k: int)
  {
    Kept(m, m', cr3, q, k) || (k == 1 && SamePath(p, q, 0))
  }

  lemma UserFlag(f: bv12)
    ensures (f | PE_US) & PE_P == f & PE_P && (f | PE_US) & PE_RW == f & PE_RW
    ensures (f | PE_US) & PE_PS == f & PE_PS && (f | PE_US) & PE_US != 0 && (f | PE_US) | PE_US == f | PE_US
  {}

  lemma SameButUserKeeps(e: Word, e': Word)
    requires SameButUser(e, e')
    ensures Present(e') == Present(e) && LargeBit(e') == LargeBit(e) && HwFrame(e') == HwFrame(e)
    ensures e'.flags & PE_RW != 0 <==> e.flags & PE_RW != 0
    ensures e.flags & PE_US != 0 ==> e'.flags & PE_US != 0
  {
    UserFlag(e.flags);
  }

  lemma SameButUserTrans(a: Word, b: Word, c: Word)
    requires SameButUser(a, b) && SameButUser(b, c)
    ensures SameButUser(a, c)
  {
    UserFlag(a.flags);
  }

  lemma KeptTrans(a: Mem, b: Mem, c: Mem, cr3: int, q: Path, k: int)
    requires Kept(a, b, cr3, q, k) && Kept(b, c, cr3, q, k)
    ensures Kept(a, c, cr3, q, k)
  {
    if Ordinary(q) && 2 <= k <= 4 {
      var x, y, z := Entry(a, cr3, q, k), Entry(b, cr3, q, k), Entry(c, cr3, q, k);
      if Present(x) {
        SameButUserKeeps(x, y);
        SameButUserTrans(x, y, z);
      } else if Present(y) {
        SameButUserKeeps(y, z);
      }
    }
  }

  // ---------- the three kinds of step ----------

  /** Hanging a new table below an entry. */
  lemma AttachKept(m: Mem, m': Mem, cr3: int, p: Path, l: int, t: int, f: int, q: Path, k: int)
    requires Tree(m, cr3) && 2 <= l <= 4 && Ordinary(p)
    requires Table(m, cr3, p, l) == Some(t) && !Present(Read(m, t, Sel(p, l)))
    requires Fresh(m, cr3, f) && Attached(m, m', t, Sel(p, l), f)
    requires Read(m', t, Sel(p, l)).flags & PE_RW != 0
    ensures Kept(m, m', cr3, q, k)
  {
    if Ordinary(q) && 1 <= k <= 4 {
      AttachTable(m, m', cr3, p, l, t, f, q, k);
      assert NotVisited(m, cr3, q, k, f);
      if k == l - 1 && SamePath(p, q, l - 1) {
        StepPath(p, q, l);
        SamePathTable(m, cr3, p, q, l);
      } else if Table(m, cr3, q, k) == Some(t) {
        OnePath(m, cr3, p, l, q, k);
      }
    }
  }

  /** Setting the user flag of a pointer. */
  lemma FlagKept(m: Mem, m': Mem, cr3: int, p: Path, l: int, t: int, q: Path, k: int)
    requires Tree(m, cr3) && 2 <= l <= 4 && Ordinary(p) && Table(m, cr3, p, l) == Some(t)
    requires OneWord(m, m', t, Sel(p, l)) && SameTables(m, m', cr3)
    requires Present(Read(m, t, Sel(p, l))) && SameButUser(Read(m, t, Sel(p, l)), Read(m', t, Sel(p, l)))
    ensures Kept(m, m', cr3, q, k)
  {
    assert SameTable(m, m', cr3, q, k);
    if Ordinary(q) && 1 <= k <= 4 && Table(m, cr3, q, k) == Some(t) {
      OnePath(m, cr3, p, l, q, k);
    }
  }

  /** Writing a last-level entry. */
  lemma LeafKept(m: Mem, m': Mem, cr3: int, p: Path, t: int, q: Path, k: int)
    requires Tree(m, cr3) && Ordinary(p) && Table(m, cr3, p, 1) == Some(t) && OneWord(m, m', t, Sel(p, 1))
    requires SameTables(m, m', cr3)
    ensures KeptBut(m, m', cr3, p, q, k)
  {
    assert SameTable(m, m', cr3, q, k);
    if Ordinary(q) && 1 <= k <= 4 && !(k == 1 && SamePath(p, q, 0)) {
      EntryFrame(m, m', cr3, p, 1, t, q, k);
    }
  }

  // ---------- what that means for rights ----------

  /** A walk that went on goes on to the same table. */
  lemma {:induction false} KeptTable(m: Mem, m': Mem, cr3: int, q: Path, k: int)
    requires 1 <= k <= 4 && Ordinary(q) && Table(m, cr3, q, k).Some?
    requires forall j | k < j <= 4 :: Kept(m, m', cr3, q, j)
    ensures Table(m', cr3, q, k) == Table(m, cr3, q, k)
    decreases 4 - k
  {
    if k >= 4 {
    } else {
      KeptTable(m, m', cr3, q, k + 1);
      assert Kept(m, m', cr3, q, k + 1);
      SameButUserKeeps(Entry(m, cr3, q, k + 1), Entry(m', cr3, q, k + 1));
    }
  }

  /** And a mapped address reads entries at the same levels. */
  lemma KeptLevels(m: Mem, m': Mem, cr3: int, v: int, k: int)
    requires Ordinary(PathOf(v)) && Translate(m, cr3, v).Hit? && 1 <= k <= 4
    requires forall j | 1 <= j <= 4 :: Kept(m, m', cr3, PathOf(v), j)
    ensures Table(m', cr3, PathOf(v), k) == Table(m, cr3, PathOf(v), k)
    ensures Table(m, cr3, PathOf(v), k).Some? ==>
      SameButUser(Entry(m, cr3, PathOf(v), k), Entry(m', cr3, PathOf(v), k))
  {
    var q := PathOf(v);
    if Table(m, cr3, q, k).Some? {
      KeptTable(m, m', cr3, q, k);
      HitPresent(m, cr3, v, k);
      assert Kept(m, m', cr3, q, k);
    } else {
      LastLevel(m, m', cr3, v, k);
    }
  }

  /** A mapped address meets no entry that is not present. */
  lemma HitPresent(m: Mem, cr3: int, v: int, k: int)
    requires Translate(m, cr3, v).Hit? && 1 <= k <= 4 && Table(m, cr3, PathOf(v), k).Some?
    ensures Present(Entry(m, cr3, PathOf(v), k))
  {
    if !Present(Entry(m, cr3, PathOf(v), k)) {
      NotPresentFaults(m, cr3, v, k);
    }
  }

  /** A walk that ended in a large page still does. */
  lemma {:induction false} LastLevel(m: Mem, m': Mem, cr3: int, v: int, k: int)
    requires Ordinary(PathOf(v)) && Translate(m, cr3, v).Hit? && 1 <= k <= 4 && Table(m, cr3, PathOf(v), k).None?
    requires forall j | 1 <= j <= 4 :: Kept(m, m', cr3, PathOf(v), j)
    ensures Table(m', cr3, PathOf(v), k).None?
    decreases 4 - k
  {
    var q := PathOf(v);
    if Table(m, cr3, q, k + 1).Some? {
      KeptTable(m, m', cr3, q, k + 1);
      HitPresent(m, cr3, v, k + 1);
      assert Kept(m, m', cr3, q, k + 1);
      SameButUserKeeps(Entry(m, cr3, q, k + 1), Entry(m', cr3, q, k + 1));
    } else {
      LastLevel(m, m', cr3, v, k + 1);
    }
  }

  /** No mapped address loses a right, and none gets the right to write. */
  lemma RightsKept(m: Mem, m': Mem, cr3: int, v: int)
    requires Ordinary(PathOf(v)) && Translate(m, cr3, v).Hit?
    requires forall j | 1 <= j <= 4 :: Kept(m, m', cr3, PathOf(v), j)
    ensures Allows(m, cr3, PathOf(v), PE_US) ==> Allows(m', cr3, PathOf(v), PE_US)
    ensures Allows(m, cr3, PathOf(v), PE_RW) <==> Allows(m', cr3, PathOf(v), PE_RW)
  {
    var q := PathOf(v);
    forall k | 1 <= k <= 4
      ensures Table(m', cr3, q, k) == Table(m, cr3, q, k)
      ensures Table(m, cr3, q, k).Some? ==>
        var f, f' := Entry(m, cr3, q, k).flags, Entry(m', cr3, q, k).flags;
        (f & PE_US != 0 ==> f' & PE_US != 0) && (f & PE_RW != 0 <==> f' & PE_RW != 0)
    {
      KeptLevels(m, m', cr3, v, k);
      if Table(m, cr3, q, k).Some? {
        SameButUserKeeps(Entry(m, cr3, q, k), Entry(m', cr3, q, k));
      }
    }
  }

  /** The tables on a path may be written through after as before. */
  lemma TablesKept(m: Mem, m': Mem, cr3: int, q: Path)
    requires Ordinary(q) && forall j | 2 <= j <= 4 :: Kept(m, m', cr3, q, j)
    ensures TablesAllow(m, cr3, q, PE_RW) ==> TablesAllow(m', cr3, q, PE_RW)
    ensures (forall j | 2 <= j <= 4 :: Present(Entry(m', cr3, q, j))) && TablesAllow(m', cr3, q, PE_RW) ==>
      TablesAllow(m, cr3, q, PE_RW)
  {
    forall k | 2 <= k <= 4
      ensures var e, e' := Entry(m, cr3, q, k), Entry(m', cr3, q, k);
        if Present(e) then Present(e') && (e'.flags & PE_RW != 0 <==> e.flags & PE_RW != 0)
        else Present(e') ==> e'.flags & PE_RW != 0
    {
      assert Kept(m, m', cr3, q, k);
      if Present(Entry(m, cr3, q, k)) {
        SameButUserKeeps(Entry(m, cr3, q, k), Entry(m', cr3, q, k));
      }
    }
  }

  // ---------- a page that was mapped ----------

  /** The last-level entry of q is e, and with the user flag every entry above it has it too. */
  ghost predicate Granted(m: Mem, cr3: int, q: Path, e: Word)
  {
    && Table(m, cr3, q, 1).Some? && Entry(m, cr3, q, 1) == e
    && (e.flags & PE_US != 0 ==> UserAbove(m, cr3, q, 4))
  }

  /** The entries of q from level 2 up to this one have the user flag. */
  ghost predicate UserAbove(m: Mem, cr3: int, q: Path, level: int)
  {
    forall k | 2 <= k <= level && k <= 4 :: Entry(m, cr3, q, k).flags & PE_US != 0
  }

  /** Then a user may use the page exactly if the entry says so, and it may be written exactly if the entry
      and the tables that were there before say so. */
  lemma GrantedRights(m: Mem, m': Mem, cr3: int, q: Path, e: Word)
    requires Ordinary(q) && Granted(m', cr3, q, e) && forall j | 2 <= j <= 4 :: Kept(m, m', cr3, q, j)
    ensures Allows(m', cr3, q, PE_US) <==> e.flags & PE_US != 0
    ensures Allows(m', cr3, q, PE_RW) <==> e.flags & PE_RW != 0 && TablesAllow(m, cr3, q, PE_RW)
  {
    WalkReachesAll(m', cr3, q, 1);
    WalkPresent(m', cr3, q);
    TablesKept(m, m', cr3, q);
    assert Allows(m', cr3, q, PE_RW) <==> e.flags & PE_RW != 0 && TablesAllow(m', cr3, q, PE_RW);
    assert UserAbove(m', cr3, q, 4) && e.flags & PE_US != 0 ==> Allows(m', cr3, q, PE_US);
  }

  lemma WalkPresent(m: Mem, cr3: int, q: Path)
    requires Table(m, cr3, q, 1).Some?
    ensures forall k | 2 <= k <= 4 :: Present(Entry(m, cr3, q, k))
  {
    WalkReachesAll(m, cr3, q, 1);
    forall k | 2 <= k <= 4
      ensures Present(Entry(m, cr3, q, k))
    {
      assert Table(m, cr3, q, k - 1).Some?;
    }
  }

  /** A page that was granted stays so while others are mapped. */
  lemma GrantedKept(m: Mem, m': Mem, cr3: int, q: Path, e: Word)
    requires Ordinary(q) && Granted(m, cr3, q, e) && forall j | 1 <= j <= 4 :: Kept(m, m', cr3, q, j)
    ensures Granted(m', cr3, q, e)
  {
    KeptTable(m, m', cr3, q, 1);
    WalkPresent(m, cr3, q);
    assert Kept(m, m', cr3, q, 1);
    if e.flags & PE_US != 0 {
      forall k | 2 <= k <= 4
        ensures Entry(m', cr3, q, k).flags & PE_US != 0
      {
        assert Kept(m, m', cr3, q, k);
        SameButUserKeeps(Entry(m, cr3, q, k), Entry(m', cr3, q, k));
      }
    }
  }
}
