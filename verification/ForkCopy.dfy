/** src/kernel/mm/map.c and pvpage.c: the deep copy of a page table made by fork, through
temporary windows: pages of the kernel's address space, taken from a bitmap and mapped with
vmap_map to the frames that are read and written. */
module ForkCopy {
  import opened PageWalk
  import opened PageCopy
  import Paging
  import Bitmap
  import Order

  const WINDOWS := 256  // (__kern_pvpg_max - __kern_pvpg_base) / PAGE_SIZ
  const PVPG_BASE := 0xFFFF_C000_0000_0000  // __kern_pvpg_base

  // ---------- windows as the processor sees them ----------

  function Va(w: int): int
  {
    PVPG_BASE + w * 4096
  }

  function WindowPath(w: int): Path
  {
    Path(384, 0, 0, w)
  }

  lemma WindowAddress(w: int, o: int)
    requires 0 <= w < WINDOWS && 0 <= o < 4096
    ensures PathOf(Va(w) + o) == WindowPath(w) && Ordinary(WindowPath(w)) && Paging.Canonical(Va(w) + o)
    ensures (Va(w) + o) % 4096 == o
  {
    var v := Va(w) + o;
    assert v / 0x1000 == 0xF_FFFC_0000_0000 + w;
    assert v / 0x20_0000 == 0x7FF_FE00_0000;
    assert v / 0x4000_0000 == 0x3_FFFF_0000;
    assert v / 0x80_0000_0000 == 0x1FF_FF80;
  }

  /** The windows have their page table wt. */
  ghost predicate WindowsAt(m: Mem, cr3: int, wt: int)
  {
    Table(m, cr3, WindowPath(0), 1) == Some(wt)
  }

  lemma WindowTable(m: Mem, cr3: int, wt: int, w: int)
    requires WindowsAt(m, cr3, wt)
    ensures Table(m, cr3, WindowPath(w), 1) == Some(wt) && NoLarge(m, cr3, WindowPath(w))
    ensures forall k | 1 <= k <= 4 :: Table(m, cr3, WindowPath(w), k).Some?
  {
    SamePathTable(m, cr3, WindowPath(0), WindowPath(w), 1);
    WalkReachesAll(m, cr3, WindowPath(w), 1);
  }

  ghost function WindowWord(f: int): Word
  {
    Paging.LeafWord(f * 4096, PE_P | PE_RW)
  }

  ghost predicate IsFrame(f: int)
  {
    0 <= f < 0x100_0000_0000
  }

  /** Through a window the processor reads and writes the frame it is mapped to. */
  lemma WindowSees(m: Mem, cr3: int, wt: int, w: int, f: int, i: int)
    requires WindowsAt(m, cr3, wt) && 0 <= w < WINDOWS && IsFrame(f) && 0 <= i < 512 && Read(m, wt, w) == WindowWord(f)
    ensures var x := Translate(m, cr3, Va(w) + 8 * i);
      x.Hit? && x.phys / 4096 == f && x.phys % 4096 / 8 == i
  {
    WindowAddress(w, 8 * i);
    WindowTable(m, cr3, wt, w);
    assert (PE_P | PE_RW) & 0x7FF & PE_P != 0;
    Paging.WordOf(f, i);
  }

  /** Writing to a frame that no walk visits. */
  lemma {:induction false} UnvisitedTable(m: Mem, m': Mem, cr3: int, u: int, i: int, q: Path, k: int)
    requires OneWord(m, m', u, i) && Fresh(m, cr3, u) && 1 <= k <= 4 && Ordinary(q)
    ensures Table(m', cr3, q, k) == Table(m, cr3, q, k)
    decreases 4 - k
  {
    if k == 4 {
    } else {
      UnvisitedTable(m, m', cr3, u, i, q, k + 1);
      assert NotVisited(m, cr3, q, k + 1, u);
    }
  }

  lemma UnvisitedTables(m: Mem, m': Mem, cr3: int, u: int, i: int)
    requires OneWord(m, m', u, i) && Fresh(m, cr3, u)
    ensures SameTables(m, m', cr3) && u != cr3
  {
    forall q, k
      ensures SameTable(m, m', cr3, q, k)
    {
      if 1 <= k <= 4 && Ordinary(q) {
        UnvisitedTable(m, m', cr3, u, i, q, k);
      }
    }
    assert NotVisited(m, cr3, WindowPath(0), 4, u);
  }

  /** The address space is in order, the windows have a page table, and those that are open show
      their frames. */
  ghost predicate Showing(m: Mem, cr3: int, free: seq<int>, wt: int, open: set<int>, win: map<int, int>)
  {
    && Paging.Sound(m, cr3, free) && |free| >= 3 && WindowsAt(m, cr3, wt)
    && forall w | w in open :: 0 <= w < WINDOWS && w in win && IsFrame(win[w]) && Read(m, wt, w) == WindowWord(win[w])
  }

  lemma UnvisitedShowing(m: Mem, m': Mem, cr3: int, free: seq<int>, wt: int, open: set<int>, win: map<int, int>,
                         u: int, i: int)
    requires Showing(m, cr3, free, wt, open, win) && OneWord(m, m', u, i) && Fresh(m, cr3, u)
    ensures Showing(m', cr3, free, wt, open, win) && SameTables(m, m', cr3) && u != wt
  {
    UnvisitedTables(m, m', cr3, u, i);
    Paging.SameTablesSound(m, m', cr3, free, u, i);
    assert SameTable(m, m', cr3, WindowPath(0), 1);
    assert NotVisited(m, cr3, WindowPath(0), 1, u);
  }

  /** Mapping a window that is not open. */
  lemma OpenShowing(m: Mem, m': Mem, cr3: int, free: seq<int>, wt: int, open: set<int>, win: map<int, int>,
                    w: int, f: int)
    requires Showing(m, cr3, free, wt, open, win) && 0 <= w < WINDOWS && w !in open && IsFrame(f)
    requires OneWord(m, m', wt, w) && Read(m', wt, w) == WindowWord(f)
    ensures Showing(m', cr3, free, wt, open + {w}, win[w := f]) && SameTables(m, m', cr3)
  {
    WindowTable(m, cr3, wt, w);
    LeafTables(m, m', cr3, WindowPath(w), wt);
    Paging.NotRecursive(m, cr3, WindowPath(w), 1, wt);
    Paging.SameTablesSound(m, m', cr3, free, wt, w);
    assert SameTable(m, m', cr3, WindowPath(0), 1);
  }

  /** Frames that no walk visits stay so. */
  ghost predicate AllFresh(supply: nat -> int, m: Mem, cr3: int, from: nat)
  {
    forall i: nat | i >= from :: Fresh(m, cr3, supply(i))
  }

  lemma StillFresh(supply: nat -> int, m: Mem, m': Mem, cr3: int, from: nat)
    requires AllFresh(supply, m, cr3, from) && SameTables(m, m', cr3)
    ensures AllFresh(supply, m', cr3, from)
  {
    forall i: nat | i >= from
      ensures Fresh(m', cr3, supply(i))
    {
      SameTablesFresh(m, m', cr3, supply(i));
    }
  }

  /** pvpage.c: which windows are open, and the frame each is mapped to. */
  class Windows {
    const bits: Bitmap.BitSet
    const mmu: Paging.Mmu
    ghost const wt: int
    ghost var win: map<int, int>
    ghost var open: set<int>
    ghost var peak: nat  // most windows ever open at once

    ghost predicate Valid()
      reads this, bits, bits.bytes, mmu
    {
      && bits.Valid() && bits.siz == WINDOWS && bits.Used() == open && |open| <= peak
      && Showing(mmu.mem, mmu.cr3, mmu.free, wt, open, win)
    }

    /** pvpage_init */
    constructor (mmu: Paging.Mmu, ghost wt: int)
      requires mmu.Valid() && |mmu.free| >= 3 && WindowsAt(mmu.mem, mmu.cr3, wt)
      ensures Valid() && open == {} && peak == 0 && this.mmu == mmu && this.wt == wt && fresh(bits) && fresh(bits.bytes)
    {
      bits := new Bitmap.BitSet(WINDOWS / 8);
      this.mmu, this.wt := mmu, wt;
      win, open, peak := map[], {}, 0;
    }

    /** `vmap_map(phy, vrt, 1, PE_P | PE_RW, MAP_4K)` on the window w. */
    method Map(w: int, f: int)
      requires Showing(mmu.mem, mmu.cr3, mmu.free, wt, open, win) && 0 <= w < WINDOWS && w !in open && IsFrame(f)
      modifies mmu`mem, mmu`free
      ensures Showing(mmu.mem, mmu.cr3, mmu.free, wt, open + {w}, win[w := f]) && mmu.free == old(mmu.free)
      ensures OneWord(old(mmu.mem), mmu.mem, wt, w) && SameTables(old(mmu.mem), mmu.mem, mmu.cr3)
    {
      forall v | Va(w) <= v < Va(w) + 1 * 4096
        ensures Paging.Canonical(v) && Ordinary(PathOf(v)) && NoLarge(mmu.mem, mmu.cr3, PathOf(v))
      {
        WindowAddress(w, v - Va(w));
        WindowTable(mmu.mem, mmu.cr3, wt, w);
      }
      WindowAddress(w, 0);
      WindowTable(mmu.mem, mmu.cr3, wt, w);
      assert (PE_P | PE_RW) & PE_US == 0 && (PE_P | PE_RW) & PE_P != 0;
      mmu.VmapMap(f * 4096, Va(w), 1, PE_P | PE_RW);
      OpenShowing(old(mmu.mem), mmu.mem, mmu.cr3, mmu.free, wt, open, win, w, f);
    }

    /** make_pvpage: fails only when every window is open. */
    method Make(f: int) returns (res: int)
      requires Valid() && IsFrame(f)
      modifies this`win, this`open, this`peak, bits.bytes, mmu`mem, mmu`free
      ensures Valid() && mmu.free == old(mmu.free) && SameTables(old(mmu.mem), mmu.mem, mmu.cr3)
      ensures res == -1 <==> |old(open)| == WINDOWS
      ensures res == -1 ==> open == old(open) && win == old(win) && peak == old(peak) && mmu.mem == old(mmu.mem)
      ensures res != -1 ==> res !in old(open) && open == old(open) + {res} && win == old(win)[res := f]
      ensures res != -1 ==> |open| == |old(open)| + 1
      ensures res != -1 ==> peak == Order.Max(old(peak), |old(open)| + 1) && OneWord(old(mmu.mem), mmu.mem, wt, res)
    {
      res := bits.Find();
      if res == -1 {
        return;
      }
      Map(res, f);
      win := win[res := f];
      open := open + {res};
      peak := Order.Max(peak, |open|);
    }

    /** break_pvpage: the window is free again, though still mapped. */
    method Break(idx: int)
      requires Valid() && idx in open
      modifies this`open, bits.bytes
      ensures Valid() && open == old(open) - {idx}
    {
      bits.Reset(idx);
      open := open - {idx};
    }

    /** Both windows of one level of the copy; with room for two neither call can fail. */
    method OpenPair(a: int, b: int) returns (va: int, vb: int)
      requires Valid() && |open| + 2 <= WINDOWS && IsFrame(a) && IsFrame(b)
      modifies this`win, this`open, this`peak, bits.bytes, mmu`mem, mmu`free
      ensures Valid() && va != vb && va !in old(open) && vb !in old(open) && open == old(open) + {va, vb}
      ensures |open| == |old(open)| + 2 && win == old(win)[va := a][vb := b]
      ensures peak == Order.Max(old(peak), |open|)
      ensures OnlyIn(old(mmu.mem), mmu.mem, {wt}) && SameTables(old(mmu.mem), mmu.mem, mmu.cr3)
    {
      va := Make(a);
      ghost var m1 := mmu.mem;
      vb := Make(b);
      TwoMore(old(open), va, vb);
      TablesTrans(old(mmu.mem), m1, mmu.mem, mmu.cr3);
    }

    method ClosePair(va: int, vb: int)
      requires Valid() && va in open && vb in open && va != vb
      modifies this`open, bits.bytes
      ensures Valid() && open == old(open) - {va, vb}
    {
      Break(va);
      Break(vb);
    }

    /** `v[i]` for a window v. */
    method Load(v: int, i: int) returns (x: Word)
      requires Valid() && v in open && 0 <= i < 512
      ensures x == Read(mmu.mem, win[v], i)
    {
      WindowSees(mmu.mem, mmu.cr3, wt, v, win[v], i);
      x := mmu.Load(Va(v) + 8 * i);
    }

    /** `v[i] = x` for a window v on a frame that no walk visits. */
    method Store(v: int, i: int, x: Word)
      requires Valid() && v in open && 0 <= i < 512 && Fresh(mmu.mem, mmu.cr3, win[v])
      modifies mmu`mem
      ensures Valid() && SameTables(old(mmu.mem), mmu.mem, mmu.cr3)
      ensures Read(mmu.mem, win[v], i) == x && OneWord(old(mmu.mem), mmu.mem, win[v], i)
    {
      WindowSees(mmu.mem, mmu.cr3, wt, v, win[v], i);
      mmu.Store(Va(v) + 8 * i, x);
      UnvisitedShowing(old(mmu.mem), mmu.mem, mmu.cr3, mmu.free, wt, open, win, win[v], i);
    }
  }

  lemma TwoMore(open: set<int>, a: int, b: int)
    ensures open + {a} + {b} == open + {a, b}
  {}

  lemma TwoLess(open: set<int>, a: int, b: int)
    requires a !in open && b !in open
    ensures open + {a, b} - {a, b} == open
  {}

  lemma TablesTrans(a: Mem, b: Mem, c: Mem, cr3: int)
    requires SameTables(a, b, cr3) && SameTables(b, c, cr3)
    ensures SameTables(a, c, cr3)
  {
    forall q, k
      ensures SameTable(a, c, cr3, q, k)
    {
      assert SameTable(a, b, cr3, q, k) && SameTable(b, c, cr3, q, k);
    }
  }

  class Forker {
    const supply: nat -> int  // the frames pmm_allocpages returns, one after another
    var taken: nat
    const pool: Windows
    ghost var base: nat       // what had been taken when the copy began

    /** The windows are in order, and the frames handed out since the copy began are visited by no
        walk of the running address space. */
    ghost predicate Valid()
      reads this, pool, pool.bits, pool.bits.bytes, pool.mmu
    {
      && pool.Valid() && Supply(supply) && base <= taken
      && AllFresh(supply, pool.mmu.mem, pool.mmu.cr3, base)
    }

    constructor (pool: Windows, supply: nat -> int)
      requires pool.Valid() && Supply(supply) && AllFresh(supply, pool.mmu.mem, pool.mmu.cr3, 0)
      ensures Valid() && this.pool == pool && this.supply == supply && taken == 0
    {
      this.pool, this.supply, taken, base := pool, supply, 0, 0;
    }

    /** pmm_allocpages(1) */
    method AllocFrame() returns (f: int)
      modifies this`taken
      ensures f == supply(old(taken)) && taken == old(taken) + 1
    {
      f := supply(taken);
      taken := taken + 1;
    }

    /** `vnpg[i] = w` through a window on frame number t of the supply. */
    method StoreWord(dst: int, i: int, w: Word, ghost t: nat)
      requires Valid() && dst in pool.open && pool.win[dst] == supply(t) && t >= base && 0 <= i < 512
      modifies pool.mmu`mem
      ensures Valid() && Read(pool.mmu.mem, supply(t), i) == w && OneWord(old(pool.mmu.mem), pool.mmu.mem, supply(t), i)
    {
      pool.Store(dst, i, w);
      StillFresh(supply, old(pool.mmu.mem), pool.mmu.mem, pool.mmu.cr3, base);
    }

    /** `memcpy(vnpg, vpg, PAGE_SIZ)` through two windows, on a frame a and on frame number t. */
    method CopyPage(dst: int, src: int, ghost t: nat, ghost a: int)
      requires Valid() && dst in pool.open && src in pool.open && pool.win[src] == a
      requires pool.win[dst] == supply(t) && t >= base && a != supply(t)
      modifies pool.mmu`mem
      ensures Valid()
      ensures forall j | 0 <= j < 512 :: Read(pool.mmu.mem, supply(t), j) == Read(old(pool.mmu.mem), a, j)
      ensures OnlyIn(old(pool.mmu.mem), pool.mmu.mem, {supply(t)})
    {
      var i := 0;
      while i < 512
        invariant 0 <= i <= 512 && Valid()
        invariant forall j | 0 <= j < i :: Read(pool.mmu.mem, supply(t), j) == Read(old(pool.mmu.mem), a, j)
        invariant OnlyIn(old(pool.mmu.mem), pool.mmu.mem, {supply(t)})
      {
        var x := pool.Load(src, i);
        StoreWord(dst, i, x, t);
        i := i + 1;
      }
    }

    /** The entry x, which is not empty: a copy of what is below it, and the new entry. */
    method CopyChild(a: int, vnpg: int, level: nat, i: int, x: Word, ghost m0: Mem, ghost t0: nat)
      requires Valid() && 0 < level <= 4 && |pool.open| + 2 * level <= WINDOWS && t0 >= base
      requires 0 <= i < Limit(level) && AtEntry(supply, m0, pool.mmu.mem, a, level, i, t0, taken, pool.wt)
      requires Untaken(supply, m0, a, level, t0, pool.wt) && x == Read(m0, a, i) != ZERO
      requires Untaken(supply, pool.mmu.mem, HwFrame(x), level - 1, taken, pool.wt)
      requires vnpg in pool.open && pool.win[vnpg] == supply(t0)
      modifies this`taken, pool`win, pool`open, pool`peak, pool.bits.bytes, pool.mmu`mem, pool.mmu`free
      ensures Valid() && Restored(old(pool.open), old(pool.win)) && taken >= old(taken)
      ensures AtEntry(supply, m0, pool.mmu.mem, a, level, i + 1, t0, taken, pool.wt)
      ensures old(pool.peak) <= pool.peak <= Order.Max(old(pool.peak), |pool.open| + 2 * level)
      decreases level, 0
    {
      ghost var m1, t1 := pool.mmu.mem, taken;
      var paddr := CopyPgtd(HwFrame(x), level - 1);
      ghost var m2 := pool.mmu.mem;
      StoreWord(vnpg, i, Word(paddr, x.flags & 0x7FF), t0);
      EntryRound(supply, m0, m1, m2, pool.mmu.mem, a, level, i, t0, t1, taken, x, paddr, pool.wt);
    }

    /** One round of the loop of _copy_pgtd. */
    method CopyEntry(a: int, vnpg: int, level: nat, i: int, ghost m0: Mem, ghost t0: nat)
      requires Valid() && 0 < level <= 4 && |pool.open| + 2 * level <= WINDOWS && t0 >= base
      requires 0 <= i < Limit(level) && AtEntry(supply, m0, pool.mmu.mem, a, level, i, t0, taken, pool.wt)
      requires Untaken(supply, m0, a, level, t0, pool.wt)
      requires vnpg in pool.open && pool.win[vnpg] == supply(t0)
      modifies this`taken, pool`win, pool`open, pool`peak, pool.bits.bytes, pool.mmu`mem, pool.mmu`free
      ensures Valid() && Restored(old(pool.open), old(pool.win)) && taken >= old(taken)
      ensures AtEntry(supply, m0, pool.mmu.mem, a, level, i + 1, t0, taken, pool.wt)
      ensures old(pool.peak) <= pool.peak <= Order.Max(old(pool.peak), |pool.open| + 2 * level)
      decreases level, 1
    {
      var x := pool.Load(vnpg, i);
      OriginalKept(supply, m0, pool.mmu.mem, a, level, i, t0, taken, pool.wt);
      if x != ZERO {
        CopyChild(a, vnpg, level, i, x, m0, t0);
      } else {
        EmptyStep(pool.mmu.mem, a, supply(t0), level, i, New(supply, t0 + 1, taken));
      }
    }

    /** Every window that was open still is, on the same frame, and no other. */
    ghost predicate Restored(open: set<int>, was: map<int, int>)
      reads pool
    {
      pool.open == open && forall k | k in open :: k in was && k in pool.win && pool.win[k] == was[k]
    }

    /** The loop of _copy_pgtd and the store to the recursive slot after it. */
    method CopyTable(a: int, vnpg: int, level: nat, npg: int, ghost m0: Mem, ghost t0: nat)
      requires Valid() && 0 < level <= 4 && |pool.open| + 2 * level <= WINDOWS && t0 >= base
      requires AtEntry(supply, m0, pool.mmu.mem, a, level, 0, t0, taken, pool.wt)
      requires Untaken(supply, m0, a, level, t0, pool.wt)
      requires vnpg in pool.open && npg == pool.win[vnpg] == supply(t0)
      modifies this`taken, pool`win, pool`open, pool`peak, pool.bits.bytes, pool.mmu`mem, pool.mmu`free
      ensures Valid() && Restored(old(pool.open), old(pool.win)) && taken >= old(taken)
      ensures Copied(m0, pool.mmu.mem, a, npg, level, t0)
      ensures old(pool.peak) <= pool.peak <= Order.Max(old(pool.peak), |pool.open| + 2 * level)
      decreases level, 2
    {
      var i := 0;
      while i < Limit(level)
        invariant 0 <= i <= Limit(level) && Valid() && Restored(old(pool.open), old(pool.win)) && taken >= old(taken)
        invariant AtEntry(supply, m0, pool.mmu.mem, a, level, i, t0, taken, pool.wt)
        invariant old(pool.peak) <= pool.peak <= Order.Max(old(pool.peak), |pool.open| + 2 * level)
      {
        CopyEntry(a, vnpg, level, i, m0, t0);
        i := i + 1;
      }
      ghost var m1 := pool.mmu.mem;
      if level == 4 {
        StoreWord(vnpg, 511, Word(npg, PE_RW | PE_P), t0);
      }
      Finish(supply, m0, m1, pool.mmu.mem, a, level, t0, taken, pool.wt);
    }

    /** From memory m0 to m, a has been copied to npg, in frames handed out since t0; otherwise only the
        page table of the windows has been written. */
    ghost predicate Copied(m0: Mem, m: Mem, a: int, npg: int, level: nat, t0: nat)
      reads this`taken
    {
      && Copy(m, a, npg, level) && TreeLike(m, npg, level)
      && Frames(m, npg, level) <= New(supply, t0, taken) && OnlyIn(m0, m, New(supply, t0, taken) + {pool.wt})
    }

    /** What follows the memcpy: nothing for a page, and for a table the copying of its entries. */
    method CopyBelow(pg: int, npg: int, vnpg: int, level: nat, ghost m0: Mem)
      requires Valid() && level <= 4 && |pool.open| + 2 * level <= WINDOWS
      requires taken > base && npg == supply(taken - 1) && Untaken(supply, m0, pg, level, taken - 1, pool.wt)
      requires vnpg in pool.open && pool.win[vnpg] == npg
      requires OnlyIn(m0, pool.mmu.mem, {npg})
      requires forall j | 0 <= j < 512 :: Read(pool.mmu.mem, npg, j) == Read(m0, pg, j)
      modifies this`taken, pool`win, pool`open, pool`peak, pool.bits.bytes, pool.mmu`mem, pool.mmu`free
      ensures Valid() && taken >= old(taken)
      ensures Copied(m0, pool.mmu.mem, pg, npg, level, old(taken) - 1)
      ensures Restored(old(pool.open), old(pool.win))
      ensures old(pool.peak) <= pool.peak <= Order.Max(old(pool.peak), |pool.open| + 2 * level)
      decreases level, 3
    {
      if level != 0 {
        Begin(supply, m0, pool.mmu.mem, pg, level, taken - 1, pool.wt);
        CopyTable(pg, vnpg, level, npg, m0, taken - 1);
      } else {
        Page(supply, m0, pool.mmu.mem, pg, taken - 1, pool.wt);
      }
    }

    /** Opening the windows first makes no difference. */
    lemma CopiedSince(m0: Mem, m1: Mem, m: Mem, a: int, npg: int, level: nat, t0: nat)
      requires OnlyIn(m0, m1, {pool.wt}) && Copied(m1, m, a, npg, level, t0)
      ensures Copied(m0, m, a, npg, level, t0)
    {}

    /** The copying itself, through windows on the original pg and on the new frame npg. */
    method CopyThrough(pg: int, vpg: int, npg: int, vnpg: int, level: nat)
      requires Valid() && level <= 4 && |pool.open| + 2 * level <= WINDOWS
      requires taken > base && npg == supply(taken - 1) && Untaken(supply, pool.mmu.mem, pg, level, taken - 1, pool.wt)
      requires vpg in pool.open && vnpg in pool.open && pool.win[vpg] == pg && pool.win[vnpg] == npg
      modifies this`taken, pool`win, pool`open, pool`peak, pool.bits.bytes, pool.mmu`mem, pool.mmu`free
      ensures Valid() && taken >= old(taken)
      ensures Copied(old(pool.mmu.mem), pool.mmu.mem, pg, npg, level, old(taken) - 1)
      ensures Restored(old(pool.open), old(pool.win))
      ensures old(pool.peak) <= pool.peak <= Order.Max(old(pool.peak), |pool.open| + 2 * level)
      decreases level, 4
    {
      ghost var m0 := pool.mmu.mem;
      assert pg in Frames(m0, pg, level);
      CopyPage(vnpg, vpg, taken - 1, pg);
      CopyBelow(pg, npg, vnpg, level, m0);
    }

    /** `break_pvpage(vpg); break_pvpage(vnpg);` where only these two were opened since. */
    method Close(vpg: int, vnpg: int, ghost open: set<int>, ghost win: map<int, int>)
      requires Valid() && vpg != vnpg && vpg !in open && vnpg !in open && pool.open == open + {vpg, vnpg}
      requires forall k | k in open :: k in win && k in pool.win && pool.win[k] == win[k]
      modifies pool`open, pool.bits.bytes
      ensures Valid() && Restored(open, win)
    {
      TwoLess(open, vpg, vnpg);
      pool.ClosePair(vpg, vnpg);
    }

    /** A new frame, and windows on it and on the original. */
    method Prepare(pg: int, ghost level: nat) returns (npg: int, vpg: int, vnpg: int)
      requires Valid() && level <= 4 && |pool.open| + 2 <= WINDOWS && IsFrame(pg)
      requires Untaken(supply, pool.mmu.mem, pg, level, taken, pool.wt)
      modifies this`taken, pool`win, pool`open, pool`peak, pool.bits.bytes, pool.mmu`mem, pool.mmu`free
      ensures Valid() && taken == old(taken) + 1 && npg == supply(old(taken))
      ensures Untaken(supply, pool.mmu.mem, pg, level, old(taken), pool.wt)
      ensures OnlyIn(old(pool.mmu.mem), pool.mmu.mem, {pool.wt})
      ensures vpg != vnpg && vpg !in old(pool.open) && vnpg !in old(pool.open)
      ensures pool.open == old(pool.open) + {vpg, vnpg} && |pool.open| == |old(pool.open)| + 2
      ensures pool.win == old(pool.win)[vpg := pg][vnpg := npg] && pool.peak == Order.Max(old(pool.peak), |pool.open|)
    {
      npg := AllocFrame();
      vpg, vnpg := pool.OpenPair(pg, npg);
      StillFresh(supply, old(pool.mmu.mem), pool.mmu.mem, pool.mmu.cr3, base);
      FramesFrame(old(pool.mmu.mem), pool.mmu.mem, pg, level);
    }

    /** _copy_pgtd: the frames of the copy are new, and nothing is written but new frames and the page
        table of the windows. */
    method CopyPgtd(pg: int, level: nat) returns (npg: int)
      requires Valid() && level <= 4 && |pool.open| + 2 * (level + 1) <= WINDOWS && IsFrame(pg)
      requires Untaken(supply, pool.mmu.mem, pg, level, taken, pool.wt)
      modifies this`taken, pool`win, pool`open, pool`peak, pool.bits.bytes, pool.mmu`mem, pool.mmu`free
      ensures Valid() && taken > old(taken) && npg == supply(old(taken))
      ensures Copied(old(pool.mmu.mem), pool.mmu.mem, pg, npg, level, old(taken))
      ensures Restored(old(pool.open), old(pool.win))
      ensures old(pool.peak) <= pool.peak <= Order.Max(old(pool.peak), |pool.open| + 2 * (level + 1))
      decreases level, 5
    {
      var vpg, vnpg;
      npg, vpg, vnpg := Prepare(pg, level);
      ghost var m1 := pool.mmu.mem;
      CopyThrough(pg, vpg, npg, vnpg, level);
      CopiedSince(old(pool.mmu.mem), m1, pool.mmu.mem, pg, npg, level, old(taken));
      Close(vpg, vnpg, old(pool.open), old(pool.win));
    }

    /** copy_pgtd: fork copies the whole table, starting with no window open. */
    method CopyAll(pg: int) returns (npg: int)
      requires pool.Valid() && Supply(supply) && AllFresh(supply, pool.mmu.mem, pool.mmu.cr3, taken)
      requires pool.open == {} && IsFrame(pg) && Untaken(supply, pool.mmu.mem, pg, 4, taken, pool.wt)
      modifies this`taken, this`base, pool`win, pool`open, pool`peak, pool.bits.bytes, pool.mmu`mem, pool.mmu`free
      ensures Valid() && taken > old(taken) && npg == supply(old(taken))
      ensures Copied(old(pool.mmu.mem), pool.mmu.mem, pg, npg, 4, old(taken))
      ensures pool.open == {} && pool.peak <= Order.Max(old(pool.peak), 10)
    {
      base := taken;
      npg := CopyPgtd(pg, 4);
    }
  }

  /** After the first window has been mapped in a new address space, the windows have a page table. */
  method FirstWindow(root: int, free: seq<int>, f: int) returns (mmu: Paging.Mmu, ghost wt: int)
    requires IsFrame(root) && root !in free && |free| >= 6 && IsFrame(f)
    requires (forall i | 0 <= i < |free| :: IsFrame(free[i])) && forall i, j | 0 <= i < j < |free| :: free[i] != free[j]
    ensures fresh(mmu) && mmu.Valid() && mmu.cr3 == root && |mmu.free| >= 3 && WindowsAt(mmu.mem, root, wt)
    ensures forall u | u != root && u !in free :: Paging.Blank(mmu.mem, root, u)
  {
    mmu := new Paging.Mmu(root, free);
    ghost var m0 := mmu.mem;
    forall v | Va(0) <= v < Va(0) + 1 * 4096
      ensures Paging.Canonical(v) && Ordinary(PathOf(v)) && NoLarge(m0, root, PathOf(v))
    {
      WindowAddress(0, v - Va(0));
    }
    assert (PE_P | PE_RW) & PE_P != 0;
    mmu.VmapMap(f * 4096, Va(0), 1, PE_P | PE_RW);
    wt := WindowMapped(m0, mmu.mem, root, f);
    forall u | u != root && u !in free
      ensures Paging.Blank(mmu.mem, root, u)
    {
      Paging.QuietBlank(m0, mmu.mem, root, free, u);
    }
  }

  lemma WindowMapped(m0: Mem, m: Mem, cr3: int, f: int) returns (wt: int)
    requires NoLarge(m0, cr3, PathOf(Va(0))) && Paging.KeepsNoLarge(m0, m, cr3, PathOf(Va(0)))
    requires Paging.RangeMapped(m0, m, cr3, f * 4096, Va(0), 1, PE_P | PE_RW, Va(0))
    ensures WindowsAt(m, cr3, wt)
  {
    WindowAddress(0, 0);
    LeafOnly(m, cr3, Va(0));
    wt := Table(m, cr3, WindowPath(0), 1).value;
  }

  /** An empty table has no frames but itself. */
  lemma EmptyFrames(m: Mem, pg: int)
    requires forall j :: Read(m, pg, j) == ZERO
    ensures Frames(m, pg, 4) == {pg}
  {}

  /** The parts fit together: a new address space, its windows, and the copy of an empty table in it. */
  method FirstFork(root: int, free: seq<int>, f: int, supply: nat -> int, pg: int) returns (k: Forker, npg: int)
    requires IsFrame(root) && root !in free && |free| >= 6 && IsFrame(f) && IsFrame(pg) && pg != root && pg !in free
    requires (forall i | 0 <= i < |free| :: IsFrame(free[i])) && forall i, j | 0 <= i < j < |free| :: free[i] != free[j]
    requires Supply(supply) && forall i: nat :: supply(i) != root && supply(i) !in free && supply(i) != pg
    ensures k.Valid() && npg == supply(0) && k.pool.open == {} && k.pool.peak <= 10
    ensures Copy(k.pool.mmu.mem, pg, npg, 4) && Frames(k.pool.mmu.mem, npg, 4) <= New(supply, 0, k.taken)
  {
    var mmu;
    ghost var wt;
    mmu, wt := FirstWindow(root, free, f);
    assert Ordinary(WindowPath(0));
    assert forall u | Fresh(mmu.mem, root, u) :: NotVisited(mmu.mem, root, WindowPath(0), 1, u);
    EmptyFrames(mmu.mem, pg);
    var pool := new Windows(mmu, wt);
    k := new Forker(pool, supply);
    npg := k.CopyAll(pg);
  }
}
