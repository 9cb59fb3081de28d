/** src/kernel/dev/disk/buffer.c: the cache of device blocks, a hash table of buffers whose
memory is carved from whole pages. */
module BufferCache {
  import opened BufferBlocks

  /** What does not change: the bucket of each block, and each device's sector size. Nothing below
      depends on which hash function it is; BufferBlocks.Bucket is the one used. */
  datatype Devices = Devices(bucket: (int, int) -> int, sector: int -> int)

  ghost predicate Sane(ds: Devices)
  {
    && (forall d, i :: 0 <= ds.bucket(d, i) < BUCKETS)
    && (forall d :: ds.sector(d) > 0)
  }

  /** Block sizes up to a page, or whole pages. */
  ghost predicate GoodSize(siz: int)
  {
    0 < siz && (siz <= PAGE_SIZ || siz % PAGE_SIZ == 0)
  }

  /** A buffer that stands for a block of its device. */
  ghost predicate Assigned(ds: Devices, b: Buf)
  {
    b.siz > 0 && ds.sector(b.dev) > 0 && b.siz % ds.sector(b.dev) == 0
  }

  /** The hash table holds exactly the cached buffers, each in the bucket of its block. */
  ghost predicate Indexed(ds: Devices, bufs: seq<Buf>, table: seq<seq<int>>, cached: set<int>)
    requires Sane(ds)
  {
    && |table| == BUCKETS
    && (forall id | id in cached :: 0 <= id < |bufs| && Assigned(ds, bufs[id])
                                    && id in table[ds.bucket(bufs[id].dev, bufs[id].idx)])
    && (forall k | 0 <= k < BUCKETS :: Chain(ds, bufs, table[k], cached, k))
  }

  /** All buffers on chain k are cached and belong there. */
  ghost predicate Chain(ds: Devices, bufs: seq<Buf>, chain: seq<int>, cached: set<int>, k: int)
  {
    forall j | 0 <= j < |chain| ::
      chain[j] in cached && 0 <= chain[j] < |bufs| && ds.bucket(bufs[chain[j]].dev, bufs[chain[j]].idx) == k
  }

  /** One buffer per block. */
  ghost predicate OneEach(bufs: seq<Buf>, cached: set<int>)
    requires forall id | id in cached :: 0 <= id < |bufs|
  {
    forall a, b | a in cached && b in cached && a != b :: !IsBlock(bufs[a], bufs[b].dev, bufs[b].idx)
  }

  ghost predicate FreeList(bufs: seq<Buf>, free: seq<int>, cached: set<int>)
  {
    && (forall i | 0 <= i < |free| :: 0 <= free[i] < |bufs| && free[i] !in cached)
    && (forall i, j | 0 <= i < j < |free| :: free[i] != free[j])
  }

  /** Every buffer that nobody has locked equals its device block. */
  ghost predicate Settled(bufs: seq<Buf>, cached: set<int>, mem: Memory, disk: Disk)
    requires forall id | id in cached :: 0 <= id < |bufs|
  {
    forall id | id in cached && bufs[id].depth == 0 :: Coherent(bufs[id], mem, disk)
  }

  /** Every device is used with one block size. */
  ghost predicate OneSized(bufs: seq<Buf>, cached: set<int>)
    requires forall id | id in cached :: 0 <= id < |bufs|
  {
    forall a, b | a in cached && b in cached && bufs[a].dev == bufs[b].dev :: bufs[a].siz == bufs[b].siz
  }

  /** Buffer r agrees with every unlocked buffer of another block where their blocks meet. */
  ghost predicate AgreesWithOthers(bufs: seq<Buf>, cached: set<int>, mem: Memory, r: int)
    requires (forall id | id in cached :: 0 <= id < |bufs|) && r in cached
  {
    forall id | id in cached && id != r && bufs[id].depth == 0 :: Agree(bufs[r], bufs[id], mem)
  }

  // ---------- what each step keeps ----------

  ghost predicate Index(ds: Devices, bufs: seq<Buf>, free: seq<int>, table: seq<seq<int>>, cached: set<int>)
    requires Sane(ds)
  {
    && Indexed(ds, bufs, table, cached) && OneEach(bufs, cached)
    && FreeList(bufs, free, cached) && AllApart(bufs)
  }

  /** No buffer has memory between lo and hi. */
  ghost predicate Unused(bufs: seq<Buf>, lo: int, hi: int)
  {
    forall j | 0 <= j < |bufs| :: bufs[j].blk + bufs[j].siz <= lo || hi <= bufs[j].blk
  }

  /** All buffers have their memory below hi. */
  ghost predicate Below(bufs: seq<Buf>, hi: int)
  {
    forall j | 0 <= j < |bufs| :: bufs[j].blk + bufs[j].siz <= hi
  }

  /** One more buffer at the head of the free list, in unused memory. */
  lemma GrowKeeps(ds: Devices, bufs: seq<Buf>, free: seq<int>, table: seq<seq<int>>, cached: set<int>, b: Buf, hi: int)
    requires Sane(ds) && Index(ds, bufs, free, table, cached)
    requires b.siz > 0 && b.blk + b.siz <= hi && Unused(bufs, b.blk, hi)
    ensures Index(ds, bufs + [b], [|bufs|] + free, table, cached) && Unused(bufs + [b], b.blk + b.siz, hi)
  {
    var bufs' := bufs + [b];
    forall k | 0 <= k < BUCKETS
      ensures Chain(ds, bufs', table[k], cached, k)
    {
      assert Chain(ds, bufs, table[k], cached, k);
    }
  }

  ghost predicate SameBlock(b: Buf, c: Buf)
  {
    b.dev == c.dev && b.idx == c.idx && b.siz == c.siz && b.blk == c.blk
  }

  lemma SameCoherent(b: Buf, c: Buf, mem: Memory, disk: Disk)
    requires SameBlock(b, c)
    ensures Coherent(b, mem, disk) <==> Coherent(c, mem, disk)
  {
    assert forall i :: SameByte(b, mem, disk, i) <==> SameByte(c, mem, disk, i);
  }

  /** Buffer r changes, but not its block or its memory. */
  lemma TouchKeeps(ds: Devices, bufs: seq<Buf>, free: seq<int>, table: seq<seq<int>>, cached: set<int>, r: int, b: Buf)
    requires Sane(ds) && Index(ds, bufs, free, table, cached) && r in cached
    requires SameBlock(bufs[r], b)
    ensures Index(ds, bufs[r := b], free, table, cached)
  {
    var bufs' := bufs[r := b];
    forall k | 0 <= k < BUCKETS
      ensures Chain(ds, bufs', table[k], cached, k)
    {
      assert Chain(ds, bufs, table[k], cached, k);
    }
  }

  /** A buffer taken off the free list gets a block and goes to the head of its chain. */
  lemma AssignKeeps(ds: Devices, bufs: seq<Buf>, free: seq<int>, table: seq<seq<int>>, cached: set<int>, r: int, b: Buf)
    requires Sane(ds) && Index(ds, bufs, free, table, cached)
    requires 0 <= r < |bufs| && r !in cached && r !in free && b.siz == bufs[r].siz && b.blk == bufs[r].blk
    requires Assigned(ds, b) && forall id | id in cached :: !IsBlock(bufs[id], b.dev, b.idx)
    ensures var k := ds.bucket(b.dev, b.idx);
      Index(ds, bufs[r := b], free, table[k := [r] + table[k]], cached + {r})
  {
    var k := ds.bucket(b.dev, b.idx);
    var bufs', table', cached' := bufs[r := b], table[k := [r] + table[k]], cached + {r};
    forall l | 0 <= l < BUCKETS
      ensures Chain(ds, bufs', table'[l], cached', l)
    {
      assert Chain(ds, bufs, table[l], cached, l);
    }
    assert table'[k][0] == r;
    forall id | id in cached
      ensures id in table'[ds.bucket(bufs'[id].dev, bufs'[id].idx)]
    {
      assert id in table[ds.bucket(bufs[id].dev, bufs[id].idx)];
    }
  }

  /** Loading buffer r from its block. */
  lemma LoadSettled(bufs: seq<Buf>, cached: set<int>, mem: Memory, disk: Disk, r: int, b: Buf)
    requires (forall id | id in cached :: 0 <= id < |bufs|) && Settled(bufs, cached, mem, disk) && AllApart(bufs)
    requires 0 <= r < |bufs| && r !in cached && b.siz == bufs[r].siz && b.blk == bufs[r].blk
    ensures var mem' := Loaded(mem, disk, b.dev, b.idx * b.siz, b.blk, b.siz);
      Coherent(b, mem', disk) && Settled(bufs[r := b], cached + {r}, mem', disk)
  {
    LoadCoherent(b, mem, disk);
    forall id | id in cached && bufs[id].depth == 0
      ensures Coherent(bufs[id], Loaded(mem, disk, b.dev, b.idx * b.siz, b.blk, b.siz), disk)
    {
      assert Apart(bufs[id], bufs[r]) || Apart(bufs[r], bufs[id]);
      LoadKeeps(b, bufs[id], mem, disk);
    }
  }

  /** Writing the locked buffer r back: the unlocked buffers stay as good as their blocks exactly
      when r agrees with them. */
  lemma StoreSettled(bufs: seq<Buf>, cached: set<int>, mem: Memory, disk: Disk, r: int)
    requires (forall id | id in cached :: 0 <= id < |bufs|) && Settled(bufs, cached, mem, disk)
    requires r in cached && bufs[r].depth > 0
    ensures Coherent(bufs[r], mem, WriteBack(bufs[r], mem, disk))
    ensures Settled(bufs, cached, mem, WriteBack(bufs[r], mem, disk)) <==> AgreesWithOthers(bufs, cached, mem, r)
  {
    StoreCoherent(bufs[r], mem, disk);
    forall id | id in cached && bufs[id].depth == 0
      ensures Coherent(bufs[id], mem, WriteBack(bufs[r], mem, disk)) <==> Agree(bufs[r], bufs[id], mem)
    {
      StoreIff(bufs[r], bufs[id], mem, disk);
    }
  }

  /** With one block size per device they always agree. */
  lemma OneSizedAgrees(bufs: seq<Buf>, cached: set<int>, mem: Memory, r: int)
    requires (forall id | id in cached :: 0 <= id < |bufs|) && r in cached
    requires OneSized(bufs, cached) && OneEach(bufs, cached)
    ensures AgreesWithOthers(bufs, cached, mem, r)
  {
    forall id | id in cached && id != r && bufs[id].depth == 0
      ensures Agree(bufs[r], bufs[id], mem)
    {
      assert !IsBlock(bufs[r], bufs[id].dev, bufs[id].idx);
      OneSizeAgree(bufs[r], bufs[id], mem);
    }
  }

  /** A byte of a locked buffer is changed. */
  lemma PokeSettled(bufs: seq<Buf>, cached: set<int>, mem: Memory, disk: Disk, r: int, i: int, x: bv8)
    requires (forall id | id in cached :: 0 <= id < |bufs|) && Settled(bufs, cached, mem, disk) && AllApart(bufs)
    requires r in cached && bufs[r].depth > 0 && 0 <= i < bufs[r].siz
    ensures Settled(bufs, cached, Poked(mem, bufs[r].blk + i, x), disk)
  {
    var mem' := Poked(mem, bufs[r].blk + i, x);
    forall id | id in cached && bufs[id].depth == 0
      ensures Coherent(bufs[id], mem', disk)
    {
      assert Apart(bufs[id], bufs[r]) || Apart(bufs[r], bufs[id]);
      forall j | 0 <= j < bufs[id].siz
        ensures SameByte(bufs[id], mem', disk, j)
      {
        assert SameByte(bufs[id], mem, disk, j);
      }
    }
  }

  function Poked(mem: Memory, a: int, x: bv8): Memory
  {
    y => if y == a then x else mem(y)
  }

  /** The bytes vmm_allocpv is asked for. */
  function PageBytes(bsiz: int): int
    requires bsiz > 0
  {
    if PAGE_SIZ / bsiz == 0 then bsiz / PAGE_SIZ * PAGE_SIZ else PAGE_SIZ
  }

  lemma PagesCover(bsiz: int, i: int)
    requires GoodSize(bsiz) && 0 <= i < if PAGE_SIZ / bsiz == 0 then 1 else PAGE_SIZ / bsiz
    ensures i * bsiz + bsiz <= PageBytes(bsiz)
  {
    var x := PAGE_SIZ / bsiz;
    if x == 0 {
      assert bsiz > PAGE_SIZ;
    } else {
      MulOrder(i, x, bsiz);
      assert x * bsiz <= PAGE_SIZ;
    }
  }

  /** lock_release(&b->lock) by the holder. */
  function Unlocked(b: Buf): Buf
    requires b.depth > 0
  {
    if b.depth == 1 then b.(depth := 0, holder := NOBODY) else b.(depth := b.depth - 1)
  }

  ghost predicate HasFree(bufs: seq<Buf>, free: seq<int>, bsiz: int)
  {
    exists i :: 0 <= i < |free| && 0 <= free[i] < |bufs| && bufs[free[i]].siz == bsiz
  }

  class Cache {
    const ds: Devices
    var bufs: seq<Buf>         // every buffer_t ever allocated
    var free: seq<int>         // the list fre
    var table: seq<seq<int>>   // the hash table all
    var mem: Memory
    var disk: Disk
    ghost var cached: set<int>

    /** The index is exact, there is one buffer per block, and no two share memory. */
    ghost predicate Valid()
      reads this
    {
      Sane(ds) && Index(ds, bufs, free, table, cached)
    }

    /** Every unlocked buffer equals its device block. */
    ghost predicate Current()
      requires Valid()
      reads this
    {
      Settled(bufs, cached, mem, disk)
    }

    /** buffer_init */
    constructor (ds: Devices, mem: Memory, disk: Disk)
      requires Sane(ds)
      ensures Valid() && Current() && this.ds == ds && cached == {} && bufs == []
      ensures this.mem == mem && this.disk == disk
    {
      this.ds, this.mem, this.disk := ds, mem, disk;
      bufs, free, cached := [], [], {};
      table := seq(BUCKETS, i => []);
    }

    /** find_all: finds the buffer of the block, of whatever size, if and only if there is one. */
    method FindAll(dev: int, idx: int) returns (r: int)
      requires Valid()
      ensures r == -1 <==> forall id | id in cached :: !IsBlock(bufs[id], dev, idx)
      ensures r != -1 ==> r in cached && IsBlock(bufs[r], dev, idx)
    {
      var chain := table[ds.bucket(dev, idx)];
      assert Chain(ds, bufs, chain, cached, ds.bucket(dev, idx));
      var i := 0;
      while i < |chain|
        invariant 0 <= i <= |chain| && forall j | 0 <= j < i :: !IsBlock(bufs[chain[j]], dev, idx)
      {
        if IsBlock(bufs[chain[i]], dev, idx) {
          return chain[i];
        }
        i := i + 1;
      }
      r := -1;
    }

    /** fill_fre: the page or pages at vp, carved into buffers of one size. */
    method FillFree(bsiz: int, vp: int)
      requires Valid() && GoodSize(bsiz) && Unused(bufs, vp, vp + PageBytes(bsiz))
      modifies this`bufs, this`free
      ensures Valid() && old(bufs) <= bufs && HasFree(bufs, free, bsiz)
      ensures forall top | vp + PageBytes(bsiz) <= top && Below(old(bufs), top) :: Below(bufs, top)
    {
      var x := PAGE_SIZ / bsiz;
      if x == 0 {
        x := 1;
      }
      assert x > 0;
      ghost var hi := vp + PageBytes(bsiz);
      var i := 0;
      while i < x
        invariant 0 <= i <= x && Valid() && old(bufs) <= bufs && Unused(bufs, vp + i * bsiz, hi)
        invariant i > 0 ==> HasFree(bufs, free, bsiz)
        invariant forall top | hi <= top && Below(old(bufs), top) :: Below(bufs, top)
      {
        PagesCover(bsiz, i);
        AddFree(bsiz, vp + i * bsiz, hi);
        assert (i + 1) * bsiz == i * bsiz + bsiz;
        i := i + 1;
      }
    }

    /** A new buffer_t at the head of the free list; its other fields do not matter yet. */
    method AddFree(bsiz: int, blk: int, ghost hi: int)
      requires Valid() && bsiz > 0 && blk + bsiz <= hi && Unused(bufs, blk, hi)
      modifies this`bufs, this`free
      ensures Valid() && old(bufs) <= bufs && HasFree(bufs, free, bsiz) && Unused(bufs, blk + bsiz, hi)
      ensures forall top | hi <= top && Below(old(bufs), top) :: Below(bufs, top)
    {
      var b := Buf(0, 0, bsiz, blk, false, NOBODY, 0);
      GrowKeeps(ds, bufs, free, table, cached, b, hi);
      bufs, free := bufs + [b], [|bufs|] + free;
      assert bufs[free[0]] == b;
    }

    /** find_fre: takes the first free buffer of the size off the list, after adding a page
        at vp if there is none. */
    method FindFree(bsiz: int, vp: int) returns (r: int)
      requires Valid() && GoodSize(bsiz)
      requires HasFree(bufs, free, bsiz) || Unused(bufs, vp, vp + PageBytes(bsiz))
      modifies this`bufs, this`free
      ensures Valid() && old(bufs) <= bufs
      ensures 0 <= r < |bufs| && bufs[r].siz == bsiz && r !in cached && r !in free
      ensures forall top | vp + PageBytes(bsiz) <= top && Below(old(bufs), top) :: Below(bufs, top)
      decreases if HasFree(bufs, free, bsiz) then 0 else 1
    {
      if free == [] {
        FillFree(bsiz, vp);
      }
      var i := 0;
      while i < |free|
        invariant 0 <= i <= |free| && forall j | 0 <= j < i :: bufs[free[j]].siz != bsiz
      {
        if bufs[free[i]].siz == bsiz {
          r := free[i];
          Unlink(i);
          return;
        }
        i := i + 1;
      }
      FillFree(bsiz, vp);
      r := FindFree(bsiz, vp);
    }

    /** list_remove of element i of the free list. */
    method Unlink(i: int)
      requires Valid() && 0 <= i < |free|
      modifies this`free
      ensures Valid() && free == old(free)[..i] + old(free)[i + 1..] && old(free)[i] !in free
    {
      free := free[..i] + free[i + 1..];
    }

    /** bread, the part for a block that has no buffer yet. */
    method Assign(r: int, dev: int, siz: int, idx: int)
      requires Valid() && siz > 0 && siz % ds.sector(dev) == 0
      requires 0 <= r < |bufs| && bufs[r].siz == siz && r !in cached && r !in free
      requires forall id | id in cached :: !IsBlock(bufs[id], dev, idx)
      modifies this`bufs, this`table, this`mem, this`cached
      ensures Valid() && cached == old(cached) + {r} && (old(Current()) ==> Current())
      ensures |bufs| == |old(bufs)| && bufs[r] == Buf(dev, idx, siz, old(bufs)[r].blk, false, NOBODY, 0)
      ensures Coherent(bufs[r], mem, disk)
      ensures forall id | 0 <= id < |bufs| && id != r :: bufs[id] == old(bufs)[id]
      ensures forall a | !(bufs[r].blk <= a < bufs[r].blk + bufs[r].siz) :: mem(a) == old(mem)(a)
    {
      var b := Buf(dev, idx, siz, bufs[r].blk, false, NOBODY, 0);
      AssignKeeps(ds, bufs, free, table, cached, r, b);
      if Current() {
        LoadSettled(bufs, cached, mem, disk, r, b);
      }
      LoadCoherent(b, mem, disk);
      bufs := bufs[r := b];
      var bsiz := ds.sector(dev);
      var scale := siz / bsiz;
      SectorOffset(idx, siz, bsiz);
      mem := Loaded(mem, disk, dev, idx * scale * bsiz, b.blk, siz / bsiz * bsiz);
      var k := ds.bucket(dev, idx);
      table := table[k := [r] + table[k]];
      cached := cached + {r};
    }

    /** Buffer r gets new flags. */
    method Touch(r: int, b: Buf)
      requires Valid() && r in cached && SameBlock(bufs[r], b)
      modifies this`bufs
      ensures Valid() && bufs == old(bufs)[r := b]
    {
      TouchKeeps(ds, bufs, free, table, cached, r, b);
      bufs := bufs[r := b];
    }

    /** find_fre and what follows it in bread. */
    method NewBuffer(dev: int, siz: int, idx: int, vp: int) returns (r: int)
      requires Valid() && GoodSize(siz) && siz % ds.sector(dev) == 0 && Unused(bufs, vp, vp + PageBytes(siz))
      requires forall id | id in cached :: !IsBlock(bufs[id], dev, idx)
      modifies this`bufs, this`free, this`table, this`mem, this`cached
      ensures Valid() && r !in old(cached) && cached == old(cached) + {r} && |bufs| >= |old(bufs)|
      ensures IsBlock(bufs[r], dev, idx) && bufs[r].depth == 0 && bufs[r].siz == siz && !bufs[r].dirty
      ensures Coherent(bufs[r], mem, disk) && (old(Current()) ==> Current())
      ensures forall id | id in old(cached) :: bufs[id] == old(bufs)[id]
      ensures forall a | !(bufs[r].blk <= a < bufs[r].blk + bufs[r].siz) :: mem(a) == old(mem)(a)
      ensures forall top | vp + PageBytes(siz) <= top && Below(old(bufs), top) :: Below(bufs, top)
    {
      r := FindFree(siz, vp);
      assert forall id | id in cached :: bufs[id] == old(bufs)[id];
      Assign(r, dev, siz, idx);
    }

    /** lock_acquire(&b->lock), when the lock is free or the task's own. */
    method Lock(r: int, task: int)
      requires Valid() && r in cached && (bufs[r].depth == 0 || bufs[r].holder == task)
      modifies this`bufs
      ensures Valid() && bufs == old(bufs)[r := old(bufs)[r].(holder := task, depth := old(bufs)[r].depth + 1)]
      ensures old(Current()) ==> Current()
    {
      var b := bufs[r].(holder := task, depth := bufs[r].depth + 1);
      if Current() {
        LockSettled(bufs, cached, mem, disk, r, b);
      }
      Touch(r, b);
    }

    /** The task can have the block: nobody else has locked its buffer. */
    ghost predicate Available(dev: int, idx: int, task: int)
      requires Valid()
      reads this
    {
      forall id | id in cached && IsBlock(bufs[id], dev, idx) :: bufs[id].depth == 0 || bufs[id].holder == task
    }

    /** bread without the lock: the only buffer of the block. */
    method Get(dev: int, siz: int, idx: int, vp: int) returns (r: int)
      requires Valid() && GoodSize(siz) && siz % ds.sector(dev) == 0 && Unused(bufs, vp, vp + PageBytes(siz))
      modifies this`bufs, this`free, this`table, this`mem, this`cached
      ensures Valid() && r in cached && IsBlock(bufs[r], dev, idx) && cached == old(cached) + {r}
      ensures forall id | id in cached && IsBlock(bufs[id], dev, idx) :: id == r
      ensures forall id | id in old(cached) :: bufs[id] == old(bufs)[id]
      ensures r in old(cached) ==> mem == old(mem)
      ensures r !in old(cached) ==> bufs[r].siz == siz && bufs[r].depth == 0 && !bufs[r].dirty
      ensures r !in old(cached) ==> Coherent(bufs[r], mem, disk)
      ensures forall a | !(bufs[r].blk <= a < bufs[r].blk + bufs[r].siz) :: mem(a) == old(mem)(a)
      ensures old(Current()) ==> Current()
      ensures forall top | vp + PageBytes(siz) <= top && Below(old(bufs), top) :: Below(bufs, top)
    {
      r := FindAll(dev, idx);
      if r == -1 {
        r := NewBuffer(dev, siz, idx, vp);
      }
      assert forall id | id in cached && id != r :: !IsBlock(bufs[id], bufs[r].dev, bufs[r].idx);
    }

    /** bread: the task gets the only buffer of the block. A block that is cached comes with the
        size it was first read with, whatever size is asked for now; one that is not is read from
        the device with the size asked for. */
    method Bread(dev: int, siz: int, idx: int, task: int, vp: int) returns (r: int)
      requires Valid() && GoodSize(siz) && siz % ds.sector(dev) == 0 && Available(dev, idx, task)
      requires Unused(bufs, vp, vp + PageBytes(siz))
      modifies this`bufs, this`free, this`table, this`mem, this`cached
      ensures Valid() && r in cached && IsBlock(bufs[r], dev, idx)
      ensures forall id | id in cached && IsBlock(bufs[id], dev, idx) :: id == r
      ensures cached == old(cached) + {r} && bufs[r].holder == task && bufs[r].depth > 0
      ensures forall id | id in old(cached) && id != r :: bufs[id] == old(bufs)[id]
      ensures r in old(cached) ==>
        bufs[r] == old(bufs)[r].(holder := task, depth := old(bufs)[r].depth + 1) && mem == old(mem)
      ensures r !in old(cached) ==> bufs[r].siz == siz && bufs[r].depth == 1 && !bufs[r].dirty
      ensures r !in old(cached) ==> Coherent(bufs[r], mem, disk)
      ensures forall a | !(bufs[r].blk <= a < bufs[r].blk + bufs[r].siz) :: mem(a) == old(mem)(a)
      ensures forall top | vp + PageBytes(siz) <= top && Below(old(bufs), top) :: Below(bufs, top)
      ensures old(Current()) ==> Current() && (bufs[r].depth == 1 ==> Coherent(bufs[r], mem, disk))
    {
      r := Get(dev, siz, idx, vp);
      ghost var b := bufs[r];
      Lock(r, task);
      SameCoherent(b, bufs[r], mem, disk);
    }

    /** The holder changes a byte of the block. */
    method Poke(r: int, i: int, x: bv8, task: int)
      requires Valid() && r in cached && bufs[r].holder == task && bufs[r].depth > 0 && 0 <= i < bufs[r].siz
      modifies this`mem
      ensures Valid() && mem(bufs[r].blk + i) == x && forall a | a != bufs[r].blk + i :: mem(a) == old(mem)(a)
      ensures old(Current()) ==> Current()
    {
      if Current() {
        PokeSettled(bufs, cached, mem, disk, r, i, x);
      }
      mem := Poked(mem, bufs[r].blk + i, x);
    }

    /** bdirty */
    method Bdirty(r: int, dirty: bool)
      requires Valid() && r in cached && bufs[r].depth > 0
      modifies this`bufs
      ensures Valid() && bufs == old(bufs)[r := old(bufs)[r].(dirty := dirty)]
      ensures old(Current()) ==> Current()
    {
      Touch(r, bufs[r].(dirty := dirty));
    }

    /** bwrite */
    method Bwrite(r: int)
      requires Valid() && r in cached
      modifies this`disk
      ensures Valid() && disk == Released(bufs[r], mem, old(disk))
    {
      var b := bufs[r];
      if !b.dirty {
        return;
      }
      var bsiz := ds.sector(b.dev);
      var scale := b.siz / bsiz;
      SectorOffset(b.idx, b.siz, bsiz);
      disk := Stored(disk, mem, b.dev, b.idx * scale * bsiz, b.blk, b.siz / bsiz * bsiz);
    }

    /** brelse, by the holder. The cache stays current exactly when a buffer that is now unlocked
        had been marked or not changed, and a buffer that was written agrees with all unlocked
        buffers whose blocks it meets; with one size per device only the first matters. */
    method Brelse(r: int, task: int)
      requires Valid() && r in cached && bufs[r].holder == task && bufs[r].depth > 0
      modifies this`disk, this`bufs
      ensures Valid() && disk == Released(old(bufs)[r], mem, old(disk))
      ensures bufs == old(bufs)[r := Unlocked(old(bufs)[r])]
      ensures old(Current()) ==>
        (Current() <==> (old(bufs)[r].depth > 1 || Returned(old(bufs)[r], mem, old(disk)))
                        && (old(bufs)[r].dirty ==> AgreesWithOthers(old(bufs), cached, mem, r)))
      ensures old(Current()) && old(OneSized(bufs, cached)) ==>
        (Current() <==> old(bufs)[r].depth > 1 || Returned(old(bufs)[r], mem, old(disk)))
    {
      ghost var bufs0, disk0 := bufs, disk;
      Bwrite(r);
      var b := bufs[r].(depth := bufs[r].depth - 1);
      if b.depth == 0 {
        b := b.(holder := NOBODY);
      }
      Touch(r, b);
      if old(Current()) {
        ReleaseSettled(bufs0, cached, mem, disk0, r, b);
        if OneSized(bufs0, cached) {
          OneSizedAgrees(bufs0, cached, mem, r);
        }
      }
    }

    /** The cache is current, and devices are used with one block size, this one with siz. */
    ghost predicate Uniform(dev: int, siz: int)
      reads this
    {
      Valid() && Current() && OneSized(bufs, cached) && SizeUsed(bufs, cached, dev, siz)
    }

    /** bread of a block that is not locked. */
    method Acquire(dev: int, siz: int, idx: int, task: int, vp: int) returns (r: int)
      requires Uniform(dev, siz) && GoodSize(siz) && siz % ds.sector(dev) == 0 && Unused(bufs, vp, vp + PageBytes(siz))
      requires forall id | id in cached && IsBlock(bufs[id], dev, idx) :: bufs[id].depth == 0
      modifies this`bufs, this`free, this`table, this`mem, this`cached
      ensures Uniform(dev, siz) && r in cached && IsBlock(bufs[r], dev, idx) && bufs[r].siz == siz
      ensures bufs[r].holder == task && bufs[r].depth == 1 && Coherent(bufs[r], mem, disk)
    {
      r := Bread(dev, siz, idx, task, vp);
      SizeKept(old(bufs), old(cached), bufs, cached, r, dev, siz);
    }

    /** brelse of a buffer that is held once, and marked or unchanged. */
    method GiveBack(r: int, task: int, ghost dev: int, ghost siz: int)
      requires Uniform(dev, siz) && r in cached && bufs[r].holder == task && bufs[r].depth == 1
      requires Returned(bufs[r], mem, disk)
      modifies this`disk, this`bufs
      ensures Uniform(dev, siz) && disk == Released(old(bufs)[r], mem, old(disk))
    {
      ghost var bufs0 := bufs;
      Brelse(r, task);
      FlagsOnly(bufs0, cached, r, bufs[r], dev, siz);
      assert bufs == bufs0[r := bufs[r]];
    }

    /** bdirty, in the same view. */
    method Mark(r: int, ghost dev: int, ghost siz: int)
      requires Uniform(dev, siz) && r in cached && bufs[r].depth == 1
      modifies this`bufs
      ensures Uniform(dev, siz) && bufs == old(bufs)[r := old(bufs)[r].(dirty := true)]
    {
      FlagsOnly(bufs, cached, r, bufs[r].(dirty := true), dev, siz);
      Bdirty(r, true);
    }

    /** A device used with one block size is read through the cache as if there were none. */
    method ReadByte(dev: int, siz: int, idx: int, i: int, task: int, vp: int) returns (x: bv8)
      requires Uniform(dev, siz) && GoodSize(siz) && siz % ds.sector(dev) == 0 && Unused(bufs, vp, vp + PageBytes(siz))
      requires 0 <= i < siz && forall id | id in cached && IsBlock(bufs[id], dev, idx) :: bufs[id].depth == 0
      modifies this
      ensures Uniform(dev, siz) && x == old(disk)(dev, idx * siz + i) && forall d, o :: disk(d, o) == old(disk)(d, o)
    {
      var r := Acquire(dev, siz, idx, task, vp);
      CoherentByte(bufs[r], mem, disk, i);
      x := mem(bufs[r].blk + i);
      CoherentRelease(bufs[r], mem, disk);
      GiveBack(r, task, dev, siz);
    }

    /** And so it is written: the device changes in that byte and in no other. */
    method WriteByte(dev: int, siz: int, idx: int, i: int, x: bv8, task: int, vp: int)
      requires Uniform(dev, siz) && GoodSize(siz) && siz % ds.sector(dev) == 0 && Unused(bufs, vp, vp + PageBytes(siz))
      requires 0 <= i < siz && forall id | id in cached && IsBlock(bufs[id], dev, idx) :: bufs[id].depth == 0
      modifies this
      ensures Uniform(dev, siz) && forall d, o :: disk(d, o) == OneByte(old(disk), dev, idx * siz + i, x)(d, o)
    {
      var r := Acquire(dev, siz, idx, task, vp);
      ghost var mem0, b := mem, bufs[r];
      Poke(r, i, x, task);
      Mark(r, dev, siz);
      SameCoherent(b, bufs[r], mem0, disk);
      WriteBackByte(bufs[r], mem0, mem, disk, i, x);
      GiveBack(r, task, dev, siz);
    }
  }

  ghost predicate SizeUsed(bufs: seq<Buf>, cached: set<int>, dev: int, siz: int)
    requires forall id | id in cached :: 0 <= id < |bufs|
  {
    forall id | id in cached && bufs[id].dev == dev :: bufs[id].siz == siz
  }

  /** Changing flags changes no size. */
  lemma FlagsOnly(bufs: seq<Buf>, cached: set<int>, r: int, b: Buf, dev: int, siz: int)
    requires (forall id | id in cached :: 0 <= id < |bufs|) && r in cached && SameBlock(bufs[r], b)
    ensures OneSized(bufs, cached) ==> OneSized(bufs[r := b], cached)
    ensures SizeUsed(bufs, cached, dev, siz) ==> SizeUsed(bufs[r := b], cached, dev, siz)
  {}

  /** Locking a buffer leaves the unlocked ones as good as their blocks. */
  lemma LockSettled(bufs: seq<Buf>, cached: set<int>, mem: Memory, disk: Disk, r: int, b: Buf)
    requires (forall id | id in cached :: 0 <= id < |bufs|) && Settled(bufs, cached, mem, disk)
    requires r in cached && b.depth > 0
    ensures Settled(bufs[r := b], cached, mem, disk)
  {}

  /** After a bread with the size the device is used with, the buffer has that size, and devices
      that were used with one size still are. */
  lemma SizeKept(bufs0: seq<Buf>, cached0: set<int>, bufs: seq<Buf>, cached: set<int>, r: int, dev: int, siz: int)
    requires (forall id | id in cached0 :: 0 <= id < |bufs0|) && (forall id | id in cached :: 0 <= id < |bufs|)
    requires SizeUsed(bufs0, cached0, dev, siz) && cached == cached0 + {r} && bufs[r].dev == dev
    requires forall id | id in cached0 && id != r :: bufs[id] == bufs0[id]
    requires r in cached0 ==> bufs0[r].dev == dev && bufs[r].siz == bufs0[r].siz
    requires r !in cached0 ==> bufs[r].siz == siz
    ensures SizeUsed(bufs, cached, dev, siz) && bufs[r].siz == siz
    ensures OneSized(bufs0, cached0) ==> OneSized(bufs, cached)
  {}

  /** Marked, or equal to its block. */
  ghost predicate Returned(b: Buf, mem: Memory, disk: Disk)
  {
    b.dirty || Coherent(b, mem, disk)
  }

  /** The exact effect of a release on the whole cache. */
  lemma ReleaseSettled(bufs: seq<Buf>, cached: set<int>, mem: Memory, disk: Disk, r: int, b: Buf)
    requires (forall id | id in cached :: 0 <= id < |bufs|) && Settled(bufs, cached, mem, disk)
    requires r in cached && bufs[r].depth > 0 && SameBlock(bufs[r], b) && b.depth == bufs[r].depth - 1
    ensures Settled(bufs[r := b], cached, mem, Released(bufs[r], mem, disk)) <==>
      (b.depth > 0 || Returned(bufs[r], mem, disk)) && (bufs[r].dirty ==> AgreesWithOthers(bufs, cached, mem, r))
  {
    var disk' := Released(bufs[r], mem, disk);
    ReleaseExact(bufs[r], mem, disk);
    SameCoherent(bufs[r], b, mem, disk');
    StoreSettled(bufs, cached, mem, disk, r);
    assert Settled(bufs[r := b], cached, mem, disk') <==>
      Settled(bufs, cached, mem, disk') && (b.depth > 0 || Coherent(b, mem, disk')) by {
      SettledSplit(bufs, cached, mem, disk', r, b);
    }
  }

  lemma SettledSplit(bufs: seq<Buf>, cached: set<int>, mem: Memory, disk: Disk, r: int, b: Buf)
    requires (forall id | id in cached :: 0 <= id < |bufs|) && r in cached && bufs[r].depth > 0
    ensures Settled(bufs[r := b], cached, mem, disk) <==>
      Settled(bufs, cached, mem, disk) && (b.depth > 0 || Coherent(b, mem, disk))
  {
    var bufs' := bufs[r := b];
    if Settled(bufs', cached, mem, disk) {
      forall id | id in cached && bufs[id].depth == 0
        ensures Coherent(bufs[id], mem, disk)
      {
        assert bufs'[id] == bufs[id];
      }
      assert bufs'[r] == b;
    }
  }
}
