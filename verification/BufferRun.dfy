/** Every run of bread, loads, stores, bdirty and brelse, by any number of tasks holding any number
of buffers: what they read is what a device without a cache would give, and which bytes have not
yet reached the device is known exactly.  Every device is used with one block size. */
module BufferRun {
  import opened BufferBlocks
  import opened BufferCache

  type Block = (int, int)      // device and block number

  datatype Op =
    | Read(dev: int, idx: int, task: int)
    | Load(dev: int, idx: int, task: int, i: int)
    | Put(dev: int, idx: int, task: int, i: int, x: bv8)
    | Mark(dev: int, idx: int, task: int, dirty: bool)
    | Release(dev: int, idx: int, task: int)

  function BlockOf(op: Op): Block
  {
    (op.dev, op.idx)
  }

  // ---------- without a cache ----------

  /** The bytes as last stored by anybody, who holds which block and how often, the marked blocks, and
      those stored into since they were last written. */
  datatype Spec = Spec(view: Disk, held: map<Block, (int, nat)>, dirty: set<Block>, pending: set<Block>)

  ghost predicate Has(sp: Spec, op: Op)
  {
    BlockOf(op) in sp.held && sp.held[BlockOf(op)].0 == op.task
  }

  ghost function Taken(sp: Spec, op: Op): Spec
  {
    var b := BlockOf(op);
    if b !in sp.held then sp.(held := sp.held[b := (op.task, 1)])
    else if Has(sp, op) then sp.(held := sp.held[b := (op.task, sp.held[b].1 + 1)])
    else sp
  }

  ghost function Freed(sp: Spec, op: Op): Spec
    requires Has(sp, op)
  {
    var b := BlockOf(op);
    var n := sp.held[b].1;
    sp.(held := if n <= 1 then sp.held - {b} else sp.held[b := (op.task, n - 1)],
        pending := if b in sp.dirty then sp.pending - {b} else sp.pending)
  }

  /** One call by a task. A bread of a block that another task holds is not taken yet, and tasks use
      only blocks they hold. */
  ghost function Next(sp: Spec, op: Op, size: int -> int): Spec
  {
    var b := BlockOf(op);
    match op
    case Read(_, _, _) => Taken(sp, op)
    case Load(_, _, _, _) => sp
    case Put(dev, idx, _, i, x) =>
      if Has(sp, op) && 0 <= i < size(dev)
      then sp.(view := OneByte(sp.view, dev, idx * size(dev) + i, x), pending := sp.pending + {b})
      else sp
    case Mark(_, _, _, dirty) =>
      if Has(sp, op) then sp.(dirty := if dirty then sp.dirty + {b} else sp.dirty - {b}) else sp
    case Release(_, _, _) => if Has(sp, op) then Freed(sp, op) else sp
  }

  /** What a load gives. */
  ghost function Out(sp: Spec, op: Op, size: int -> int): bv8
  {
    if op.Load? && Has(sp, op) && 0 <= op.i < size(op.dev) then sp.view(op.dev, op.idx * size(op.dev) + op.i) else 0
  }

  // ---------- the cache stands for it ----------

  ghost predicate InBlock(n: int, idx: int, o: int)
  {
    idx * n <= o < idx * n + n
  }

  lemma OneBlock(n: int, i: int, j: int, o: int)
    requires n > 0 && InBlock(n, i, o) && InBlock(n, j, o)
    ensures i == j
  {
    if i < j {
      MulOrder(i, j, n);
    } else if j < i {
      MulOrder(j, i, n);
    }
  }

  ghost predicate Pending(sp: Spec, size: int -> int, d: int, o: int)
  {
    exists idx :: (d, idx) in sp.pending && InBlock(size(d), idx, o)
  }

  /** A buffer holds the bytes of its block, and its flags are those of the block. */
  ghost predicate Fits(b: Buf, mem: Memory, sp: Spec, size: int -> int)
  {
    && b.siz == size(b.dev) && Coherent(b, mem, sp.view)
    && ((b.dev, b.idx) in sp.held <==> b.depth > 0)
    && (b.depth > 0 ==> sp.held[(b.dev, b.idx)] == (b.holder, b.depth))
    && ((b.dev, b.idx) in sp.dirty <==> b.dirty)
  }

  ghost predicate HasBuffer(bufs: seq<Buf>, cached: set<int>, b: Block)
  {
    exists id :: id in cached && 0 <= id < |bufs| && IsBlock(bufs[id], b.0, b.1)
  }

  ghost predicate AllFit(bufs: seq<Buf>, cached: set<int>, mem: Memory, sp: Spec, size: int -> int)
  {
    forall id | id in cached :: 0 <= id < |bufs| && Fits(bufs[id], mem, sp, size)
  }

  ghost predicate AllCached(bufs: seq<Buf>, cached: set<int>, sp: Spec)
  {
    forall b | b in sp.held.Keys + sp.dirty + sp.pending :: HasBuffer(bufs, cached, b)
  }

  /** The device has every byte that is not pending. */
  ghost predicate Synced(disk: Disk, sp: Spec, size: int -> int)
  {
    forall d, o :: disk(d, o) == sp.view(d, o) || Pending(sp, size, d, o)
  }

  ghost predicate Stands(c: Cache, sp: Spec, size: int -> int)
    reads c
  {
    && c.Valid() && AllFit(c.bufs, c.cached, c.mem, sp, size) && AllCached(c.bufs, c.cached, sp)
    && Synced(c.disk, sp, size)
  }

  ghost predicate Sizes(ds: Devices, size: int -> int)
  {
    Sane(ds) && forall d :: GoodSize(size(d)) && size(d) % ds.sector(d) == 0
  }

  // ---------- what each call keeps ----------

  /** Buffers outside the memory of r do not see changes in it. */
  lemma OthersHold(b: Buf, r: Buf, mem0: Memory, mem: Memory, disk: Disk)
    requires Apart(b, r) && Coherent(b, mem0, disk)
    requires forall a | !(r.blk <= a < r.blk + r.siz) :: mem(a) == mem0(a)
    ensures Coherent(b, mem, disk)
  {
    forall i | 0 <= i < b.siz
      ensures SameByte(b, mem, disk, i)
    {
      assert SameByte(b, mem0, disk, i);
    }
  }

  /** A block with nothing pending is on the device. */
  lemma FreshHolds(b: Buf, mem: Memory, disk: Disk, sp: Spec, size: int -> int)
    requires b.siz == size(b.dev) > 0 && (b.dev, b.idx) !in sp.pending
    requires Coherent(b, mem, disk) && Synced(disk, sp, size)
    ensures Coherent(b, mem, sp.view)
  {
    forall i | 0 <= i < b.siz
      ensures SameByte(b, mem, sp.view, i)
    {
      var o := b.idx * b.siz + i;
      assert SameByte(b, mem, disk, i);
      if Pending(sp, size, b.dev, o) {
        var idx :| (b.dev, idx) in sp.pending && InBlock(size(b.dev), idx, o);
        assert InBlock(b.siz, b.idx, o);
        OneBlock(b.siz, b.idx, idx, o);
      }
    }
  }

  ghost predicate Only(bufs: seq<Buf>, cached: set<int>, b: Block, r: int)
  {
    forall id | id in cached && 0 <= id < |bufs| && IsBlock(bufs[id], b.0, b.1) :: id == r
  }

  /** The buffers other than r are as they were, and r is in another place of memory. */
  ghost predicate OthersKept(bufs0: seq<Buf>, cached0: set<int>, bufs: seq<Buf>, r: int, mem0: Memory, mem: Memory)
  {
    && 0 <= r < |bufs| && (forall a | !(bufs[r].blk <= a < bufs[r].blk + bufs[r].siz) :: mem(a) == mem0(a))
    && (forall id | id in cached0 && id != r :: 0 <= id < |bufs0| && 0 <= id < |bufs| && bufs[id] == bufs0[id])
  }

  lemma StillCached(bufs0: seq<Buf>, cached0: set<int>, bufs: seq<Buf>, cached: set<int>, r: int, b: Block)
    requires HasBuffer(bufs0, cached0, b) && cached0 <= cached && r in cached && 0 <= r < |bufs|
    requires forall id | id in cached0 && id != r :: 0 <= id < |bufs0| && 0 <= id < |bufs| && bufs[id] == bufs0[id]
    requires r in cached0 ==> 0 <= r < |bufs0| && SameBlock(bufs0[r], bufs[r])
    ensures HasBuffer(bufs, cached, b)
  {
    var id :| id in cached0 && 0 <= id < |bufs0| && IsBlock(bufs0[id], b.0, b.1);
    assert IsBlock(bufs[id], b.0, b.1);
  }

  /** What bread has done when it returns buffer r. */
  ghost predicate Fetched(bufs0: seq<Buf>, cached0: set<int>, mem0: Memory,
                          bufs: seq<Buf>, cached: set<int>, mem: Memory, disk: Disk, op: Op, r: int, n: int)
  {
    && cached == cached0 + {r} && OthersKept(bufs0, cached0, bufs, r, mem0, mem) && AllApart(bufs)
    && IsBlock(bufs[r], op.dev, op.idx) && Only(bufs, cached, BlockOf(op), r)
    && (r in cached0 ==>
          && 0 <= r < |bufs0| && (bufs0[r].depth == 0 || bufs0[r].holder == op.task) && mem == mem0
          && bufs[r] == bufs0[r].(holder := op.task, depth := bufs0[r].depth + 1))
    && (r !in cached0 ==>
          && bufs[r].siz == n && bufs[r].depth == 1 && bufs[r].holder == op.task && !bufs[r].dirty
          && Coherent(bufs[r], mem, disk))
  }

  lemma ReadFits(bufs0: seq<Buf>, cached0: set<int>, mem0: Memory, bufs: seq<Buf>, cached: set<int>, mem: Memory,
                 disk: Disk, sp: Spec, op: Op, r: int, size: int -> int)
    requires AllFit(bufs0, cached0, mem0, sp, size) && AllCached(bufs0, cached0, sp) && Synced(disk, sp, size)
    requires size(op.dev) > 0 && Fetched(bufs0, cached0, mem0, bufs, cached, mem, disk, op, r, size(op.dev))
    ensures AllFit(bufs, cached, mem, Taken(sp, op), size) && AllCached(bufs, cached, Taken(sp, op))
  {
    var sp' := Taken(sp, op);
    forall id | id in cached
      ensures 0 <= id < |bufs| && Fits(bufs[id], mem, sp', size)
    {
      if id != r {
        assert Fits(bufs0[id], mem0, sp, size);
        OthersHold(bufs[id], bufs[r], mem0, mem, sp.view);
      } else if r in cached0 {
        assert Fits(bufs0[r], mem0, sp, size);
        SameCoherent(bufs0[r], bufs[r], mem, sp.view);
      } else {
        NotYet(bufs0, cached0, bufs, cached, sp, BlockOf(op), r);
        FreshHolds(bufs[r], mem, disk, sp, size);
      }
    }
    forall b | b in sp'.held.Keys + sp'.dirty + sp'.pending
      ensures HasBuffer(bufs, cached, b)
    {
      if b == BlockOf(op) {
        assert IsBlock(bufs[r], b.0, b.1);
      } else {
        StillCached(bufs0, cached0, bufs, cached, r, b);
      }
    }
  }

  /** A block that has no buffer yet is not held, marked or pending. */
  lemma NotYet(bufs0: seq<Buf>, cached0: set<int>, bufs: seq<Buf>, cached: set<int>, sp: Spec, b: Block, r: int)
    requires AllCached(bufs0, cached0, sp) && r !in cached0 && cached == cached0 + {r} && Only(bufs, cached, b, r)
    requires forall id | id in cached0 && id != r :: 0 <= id < |bufs0| && 0 <= id < |bufs| && bufs[id] == bufs0[id]
    ensures b !in sp.held && b !in sp.dirty && b !in sp.pending
  {
    forall id | id in cached0 && 0 <= id < |bufs0|
      ensures !IsBlock(bufs0[id], b.0, b.1)
    {
      assert bufs[id] == bufs0[id];
    }
    assert !HasBuffer(bufs0, cached0, b);
    assert b !in sp.held.Keys + sp.dirty + sp.pending;
  }

  /** A store by the holder */
  lemma PutFits(bufs: seq<Buf>, cached: set<int>, mem0: Memory, mem: Memory, sp: Spec, op: Op, r: int, size: int -> int)
    requires op.Put? && AllFit(bufs, cached, mem0, sp, size) && AllApart(bufs) && r in cached
    requires Has(sp, op) && IsBlock(bufs[r], op.dev, op.idx) && Only(bufs, cached, BlockOf(op), r)
    requires 0 <= op.i < size(op.dev) && mem(bufs[r].blk + op.i) == op.x
    requires forall a | a != bufs[r].blk + op.i :: mem(a) == mem0(a)
    ensures AllFit(bufs, cached, mem, Next(sp, op, size), size)
  {
    var sp' := Next(sp, op, size);
    forall id | id in cached
      ensures 0 <= id < |bufs| && Fits(bufs[id], mem, sp', size)
    {
      assert Fits(bufs[id], mem0, sp, size);
      assert Fits(bufs[r], mem0, sp, size);
      if id != r {
        assert Apart(bufs[id], bufs[r]);
        OthersHold(bufs[id], bufs[r], mem0, mem, sp.view);
        assert !IsBlock(bufs[id], op.dev, op.idx);
        OtherBlock(bufs[id], mem, sp.view, op, size(op.dev));
      } else {
        StoredByte(bufs[r], mem0, mem, sp.view, op.i, op.x);
      }
    }
  }

  /** Another block of the device does not see the stored byte. */
  lemma OtherBlock(b: Buf, mem: Memory, view: Disk, op: Op, n: int)
    requires op.Put? && 0 <= op.i < n && Coherent(b, mem, view)
    requires !IsBlock(b, op.dev, op.idx) && (b.dev == op.dev ==> b.siz == n)
    ensures Coherent(b, mem, OneByte(view, op.dev, op.idx * n + op.i, op.x))
  {
    var view' := OneByte(view, op.dev, op.idx * n + op.i, op.x);
    forall j | 0 <= j < b.siz
      ensures SameByte(b, mem, view', j)
    {
      assert SameByte(b, mem, view, j);
      var o := b.idx * b.siz + j;
      if b.dev == op.dev && o == op.idx * n + op.i {
        assert InBlock(n, b.idx, o) && InBlock(n, op.idx, o);
        OneBlock(n, b.idx, op.idx, o);
      }
    }
  }

  lemma StoredByte(b: Buf, mem0: Memory, mem: Memory, view: Disk, i: int, x: bv8)
    requires Coherent(b, mem0, view) && 0 <= i < b.siz && mem(b.blk + i) == x
    requires forall a | a != b.blk + i :: mem(a) == mem0(a)
    ensures Coherent(b, mem, OneByte(view, b.dev, b.idx * b.siz + i, x))
  {
    var view' := OneByte(view, b.dev, b.idx * b.siz + i, x);
    forall j | 0 <= j < b.siz
      ensures SameByte(b, mem, view', j)
    {
      assert SameByte(b, mem0, view, j);
    }
  }

  lemma PutSynced(disk: Disk, sp: Spec, op: Op, size: int -> int)
    requires op.Put? && Has(sp, op) && 0 <= op.i < size(op.dev) && Synced(disk, sp, size)
    ensures Synced(disk, Next(sp, op, size), size)
  {
    var sp' := Next(sp, op, size);
    forall d, o
      ensures disk(d, o) == sp'.view(d, o) || Pending(sp', size, d, o)
    {
      if d == op.dev && o == op.idx * size(op.dev) + op.i {
        assert (d, op.idx) in sp'.pending && InBlock(size(d), op.idx, o);
      } else if Pending(sp, size, d, o) {
        var idx :| (d, idx) in sp.pending && InBlock(size(d), idx, o);
        assert (d, idx) in sp'.pending;
      }
    }
  }

  /** At most the flags of block b change, and it may be written. */
  ghost predicate OnlyFlags(sp: Spec, sp': Spec, b: Block)
  {
    && sp'.view == sp.view && sp'.pending <= sp.pending
    && (forall c | c != b :: (c in sp'.held <==> c in sp.held) && (c in sp'.held ==> sp'.held[c] == sp.held[c]))
    && (forall c | c != b :: c in sp'.dirty <==> c in sp.dirty)
  }

  ghost predicate SameFlags(sp: Spec, b: Buf)
  {
    && ((b.dev, b.idx) in sp.held <==> b.depth > 0) && ((b.dev, b.idx) in sp.dirty <==> b.dirty)
    && (b.depth > 0 ==> sp.held[(b.dev, b.idx)] == (b.holder, b.depth))
  }

  lemma MarkFlags(sp: Spec, op: Op, b: Buf, mem: Memory, size: int -> int)
    requires op.Mark? && Has(sp, op) && Fits(b, mem, sp, size) && IsBlock(b, op.dev, op.idx)
    ensures OnlyFlags(sp, Next(sp, op, size), BlockOf(op)) && SameFlags(Next(sp, op, size), b.(dirty := op.dirty))
  {}

  lemma ReleaseFlags(sp: Spec, op: Op, b: Buf, mem: Memory, size: int -> int)
    requires Has(sp, op) && Fits(b, mem, sp, size) && IsBlock(b, op.dev, op.idx)
    ensures b.depth > 0 && OnlyFlags(sp, Freed(sp, op), BlockOf(op)) && SameFlags(Freed(sp, op), Unlocked(b))
  {}

  /** Only the flags of buffer r and of its block change. */
  lemma FlagsFit(bufs: seq<Buf>, cached: set<int>, mem: Memory, sp: Spec, sp': Spec, r: int, b: Buf, size: int -> int)
    requires AllFit(bufs, cached, mem, sp, size) && AllCached(bufs, cached, sp) && r in cached
    requires Only(bufs, cached, (b.dev, b.idx), r) && SameBlock(bufs[r], b)
    requires OnlyFlags(sp, sp', (b.dev, b.idx)) && SameFlags(sp', b)
    ensures AllFit(bufs[r := b], cached, mem, sp', size) && AllCached(bufs[r := b], cached, sp')
  {
    var bufs' := bufs[r := b];
    forall id | id in cached
      ensures 0 <= id < |bufs| && Fits(bufs'[id], mem, sp', size)
    {
      assert Fits(bufs[id], mem, sp, size);
      if id == r {
        SameCoherent(bufs[r], b, mem, sp.view);
      } else {
        assert !IsBlock(bufs[id], b.dev, b.idx);
      }
    }
    forall c | c in sp'.held.Keys + sp'.dirty + sp'.pending
      ensures HasBuffer(bufs', cached, c)
    {
      if c == (b.dev, b.idx) {
        assert IsBlock(bufs'[r], c.0, c.1);
      } else {
        StillCached(bufs, cached, bufs', cached, r, c);
      }
    }
  }

  /** brelse, on the device */
  lemma ReleaseSynced(b: Buf, mem: Memory, disk: Disk, sp: Spec, op: Op, size: int -> int)
    requires Has(sp, op) && Synced(disk, sp, size) && Fits(b, mem, sp, size) && IsBlock(b, op.dev, op.idx)
    ensures Synced(Released(b, mem, disk), Freed(sp, op), size)
  {
    var disk', sp' := Released(b, mem, disk), Freed(sp, op);
    forall d, o
      ensures disk'(d, o) == sp'.view(d, o) || Pending(sp', size, d, o)
    {
      if b.dirty && OnBlock(b, d, o) {
        var j := o - b.idx * b.siz;
        assert SameByte(b, mem, sp.view, j);
        assert b.blk + o - b.idx * b.siz == b.blk + j;
      } else if Pending(sp, size, d, o) {
        var idx :| (d, idx) in sp.pending && InBlock(size(d), idx, o);
        assert (d, idx) in sp'.pending;
      }
    }
  }

  // ---------- the code ----------

  /** The buffer of the block, if the task holds it. */
  method Find(c: Cache, op: Op, ghost sp: Spec, ghost size: int -> int) returns (r: int)
    requires Stands(c, sp, size)
    ensures r != -1 <==> Has(sp, op)
    ensures r != -1 ==> r in c.cached && 0 <= r < |c.bufs| && IsBlock(c.bufs[r], op.dev, op.idx)
    ensures r != -1 ==> c.bufs[r].depth > 0 && c.bufs[r].holder == op.task && Only(c.bufs, c.cached, BlockOf(op), r)
  {
    r := c.FindAll(op.dev, op.idx);
    if r == -1 {
      assert !HasBuffer(c.bufs, c.cached, BlockOf(op));
      assert BlockOf(op) !in sp.held.Keys + sp.dirty + sp.pending;
      return;
    }
    assert Fits(c.bufs[r], c.mem, sp, size);
    if c.bufs[r].depth == 0 || c.bufs[r].holder != op.task {
      r := -1;
    }
  }

  /** Must the task wait for the block? */
  method MustWait(c: Cache, op: Op, ghost sp: Spec, ghost size: int -> int) returns (yes: bool)
    requires Stands(c, sp, size)
    ensures yes ==> BlockOf(op) in sp.held && !Has(sp, op)
    ensures !yes ==> c.Available(op.dev, op.idx, op.task)
  {
    var r := c.FindAll(op.dev, op.idx);
    yes := false;
    if r != -1 {
      assert Fits(c.bufs[r], c.mem, sp, size);
      yes := c.bufs[r].depth > 0 && c.bufs[r].holder != op.task;
    }
  }

  /** bread of a block the task can have; new pages come from top on. */
  method Fetch(c: Cache, op: Op, n: int, top: int) returns (r: int)
    requires c.Valid() && GoodSize(n) && n % c.ds.sector(op.dev) == 0 && c.Available(op.dev, op.idx, op.task)
    requires Below(c.bufs, top)
    modifies c`bufs, c`free, c`table, c`mem, c`cached
    ensures c.Valid() && Below(c.bufs, top + PageBytes(n))
    ensures Fetched(old(c.bufs), old(c.cached), old(c.mem), c.bufs, c.cached, c.mem, c.disk, op, r, n)
  {
    r := c.Bread(op.dev, n, op.idx, op.task, top);
    assert Below(old(c.bufs), top + PageBytes(n));
  }

  /** bread, unless another task holds the block. */
  method DoRead(c: Cache, op: Op, size: int -> int, top: int, ghost sp: Spec) returns (top': int)
    requires op.Read? && Stands(c, sp, size) && Sizes(c.ds, size) && Below(c.bufs, top)
    modifies c
    ensures Stands(c, Taken(sp, op), size) && Below(c.bufs, top')
  {
    top' := top;
    var wait := MustWait(c, op, sp, size);
    if wait {
      return;
    }
    ghost var bufs0, cached0, mem0 := c.bufs, c.cached, c.mem;
    var r := Fetch(c, op, size(op.dev), top);
    top' := top + PageBytes(size(op.dev));
    ReadFits(bufs0, cached0, mem0, c.bufs, c.cached, c.mem, c.disk, sp, op, r, size);
  }

  /** A load by the holder. */
  method DoLoad(c: Cache, op: Op, size: int -> int, ghost sp: Spec) returns (x: bv8)
    requires op.Load? && Stands(c, sp, size)
    ensures x == Out(sp, op, size)
  {
    x := 0;
    var r := Find(c, op, sp, size);
    if r != -1 && 0 <= op.i < size(op.dev) {
      assert Fits(c.bufs[r], c.mem, sp, size);
      CoherentByte(c.bufs[r], c.mem, sp.view, op.i);
      x := c.mem(c.bufs[r].blk + op.i);
    }
  }

  /** A store by the holder. */
  method DoPut(c: Cache, op: Op, size: int -> int, ghost sp: Spec)
    requires op.Put? && Stands(c, sp, size)
    modifies c`mem
    ensures Stands(c, Next(sp, op, size), size)
  {
    var r := Find(c, op, sp, size);
    if r != -1 && 0 <= op.i < size(op.dev) {
      ghost var mem0 := c.mem;
      assert Fits(c.bufs[r], mem0, sp, size);
      c.Poke(r, op.i, op.x, op.task);
      PutFits(c.bufs, c.cached, mem0, c.mem, sp, op, r, size);
      PutSynced(c.disk, sp, op, size);
      PutCached(c.bufs, c.cached, sp, op, r, size);
    }
  }

  lemma PutCached(bufs: seq<Buf>, cached: set<int>, sp: Spec, op: Op, r: int, size: int -> int)
    requires op.Put? && AllCached(bufs, cached, sp)
    requires r in cached && 0 <= r < |bufs| && IsBlock(bufs[r], op.dev, op.idx)
    ensures AllCached(bufs, cached, Next(sp, op, size))
  {
    assert HasBuffer(bufs, cached, BlockOf(op));
  }

  /** bdirty by the holder. */
  method DoMark(c: Cache, op: Op, ghost size: int -> int, ghost sp: Spec)
    requires op.Mark? && Stands(c, sp, size)
    modifies c`bufs
    ensures Stands(c, Next(sp, op, size), size)
    ensures forall top | Below(old(c.bufs), top) :: Below(c.bufs, top)
  {
    var r := Find(c, op, sp, size);
    if r != -1 {
      ghost var bufs0 := c.bufs;
      assert Fits(bufs0[r], c.mem, sp, size);
      MarkFlags(sp, op, bufs0[r], c.mem, size);
      c.Bdirty(r, op.dirty);
      FlagsFit(bufs0, c.cached, c.mem, sp, Next(sp, op, size), r, c.bufs[r], size);
    }
  }

  /** brelse by the holder. */
  method DoRelease(c: Cache, op: Op, ghost size: int -> int, ghost sp: Spec)
    requires op.Release? && Stands(c, sp, size)
    modifies c`bufs, c`disk
    ensures Stands(c, Next(sp, op, size), size)
    ensures forall top | Below(old(c.bufs), top) :: Below(c.bufs, top)
  {
    var r := Find(c, op, sp, size);
    if r != -1 {
      ghost var bufs0 := c.bufs;
      assert Fits(bufs0[r], c.mem, sp, size);
      ReleaseSynced(bufs0[r], c.mem, c.disk, sp, op, size);
      ReleaseFlags(sp, op, bufs0[r], c.mem, size);
      c.Brelse(r, op.task);
      FlagsFit(bufs0, c.cached, c.mem, sp, Next(sp, op, size), r, c.bufs[r], size);
    }
  }

  /** One call. */
  method Do(c: Cache, op: Op, size: int -> int, top: int, ghost sp: Spec) returns (x: bv8, top': int)
    requires Stands(c, sp, size) && Sizes(c.ds, size) && Below(c.bufs, top)
    modifies c
    ensures Stands(c, Next(sp, op, size), size) && Below(c.bufs, top') && x == Out(sp, op, size)
  {
    x, top' := 0, top;
    match op {
      case Read(_, _, _) => top' := DoRead(c, op, size, top, sp);
      case Load(_, _, _, _) => x := DoLoad(c, op, size, sp);
      case Put(_, _, _, _, _) => DoPut(c, op, size, sp);
      case Mark(_, _, _, _) => DoMark(c, op, size, sp);
      case Release(_, _, _) => DoRelease(c, op, size, sp);
    }
  }

  ghost function Start(disk: Disk): Spec
  {
    Spec(disk, map[], {}, {})
  }

  ghost function After(disk: Disk, ops: seq<Op>, size: int -> int): Spec
  {
    if ops == [] then Start(disk) else Next(After(disk, ops[..|ops| - 1], size), ops[|ops| - 1], size)
  }

  /** The results so far are those of the device without a cache. */
  ghost predicate Outs(disk: Disk, ops: seq<Op>, size: int -> int, outs: seq<bv8>)
  {
    |outs| <= |ops| && forall n | 0 <= n < |outs| :: outs[n] == Out(After(disk, ops[..n], size), ops[n], size)
  }

  lemma NextOut(disk: Disk, ops: seq<Op>, size: int -> int, outs: seq<bv8>, x: bv8)
    requires Outs(disk, ops, size, outs) && |outs| < |ops|
    requires x == Out(After(disk, ops[..|outs|], size), ops[|outs|], size)
    ensures Outs(disk, ops, size, outs + [x])
    ensures var n := |outs|; After(disk, ops[..n + 1], size) == Next(After(disk, ops[..n], size), ops[n], size)
  {
    var n := |outs|;
    assert ops[..n + 1][..n] == ops[..n];
  }

  lemma Empty(c: Cache, disk: Disk, size: int -> int)
    requires c.Valid() && c.cached == {} && c.disk == disk
    ensures Stands(c, Start(disk), size)
  {}

  /** Every run from an empty cache: the n-th result is that of the device without a cache, and at the
      end the device has all bytes but those of blocks stored into and not written since. */
  method Run(ds: Devices, mem: Memory, disk: Disk, size: int -> int, ops: seq<Op>) returns (c: Cache, outs: seq<bv8>)
    requires Sizes(ds, size)
    ensures |outs| == |ops| && Outs(disk, ops, size, outs)
    ensures var sp := After(disk, ops, size);
      && Stands(c, sp, size) && Synced(c.disk, sp, size)
      && (sp.pending == {} ==> forall d, o :: c.disk(d, o) == sp.view(d, o))
  {
    c := new Cache(ds, mem, disk);
    outs := [];
    var top := 0;
    ghost var sp := Start(disk);
    Empty(c, disk, size);
    for n := 0 to |ops|
      invariant fresh(c) && c.ds == ds && Below(c.bufs, top)
      invariant sp == After(disk, ops[..n], size) && Stands(c, sp, size)
      invariant |outs| == n && Outs(disk, ops, size, outs)
    {
      var x;
      x, top := Do(c, ops[n], size, top, sp);
      NextOut(disk, ops, size, outs, x);
      outs := outs + [x];
      sp := Next(sp, ops[n], size);
    }
    assert ops[..|ops|] == ops;
    Written(c.disk, sp, size);
  }

  /** With nothing pending the device is up to date. */
  lemma Written(disk: Disk, sp: Spec, size: int -> int)
    requires Synced(disk, sp, size)
    ensures sp.pending == {} ==> forall d, o :: disk(d, o) == sp.view(d, o)
  {
    if sp.pending == {} {
      forall d, o
        ensures disk(d, o) == sp.view(d, o)
      {
        assert !Pending(sp, size, d, o);
      }
    }
  }
}
