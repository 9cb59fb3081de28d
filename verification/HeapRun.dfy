/** Every run of malloc, loads, stores and free: each live allocation reads back what was last
stored into it, and nothing is in use that has not been asked for. */
module HeapRun {
  import opened HeapBlocks
  import KernelHeap

  /** Allocations are numbered in the order of the calls; k counts words. */
  datatype Op = Alloc(siz: nat) | Load(j: nat, k: nat) | Put(j: nat, k: nat, v: int) | Free(j: nat)

  // ---------- without addresses ----------

  /** An allocation: whether it is still there, the size asked for and the words stored so far. */
  datatype Object = Object(live: bool, siz: nat, words: map<nat, int>)

  ghost predicate Usable(os: seq<Object>, j: nat, k: nat)
  {
    j < |os| && os[j].live && 4 * k + 4 <= os[j].siz
  }

  /** One call; owners keep to their live allocations, and malloc(0) gives none. */
  ghost function Next(os: seq<Object>, op: Op): seq<Object>
  {
    match op
    case Alloc(siz) => os + [Object(siz > 0, siz, map[])]
    case Load(_, _) => os
    case Put(j, k, v) => if Usable(os, j, k) then os[j := os[j].(words := os[j].words[k := v])] else os
    case Free(j) => if j < |os| then os[j := os[j].(live := false)] else os
  }

  ghost function After(ops: seq<Op>): seq<Object>
  {
    if ops == [] then [] else Next(After(ops[..|ops| - 1]), ops[|ops| - 1])
  }

  /** A load of a word that has been stored gives what was stored last. */
  ghost predicate Right(os: seq<Object>, op: Op, x: int)
  {
    op.Load? && Usable(os, op.j, op.k) && op.k in os[op.j].words ==> x == os[op.j].words[op.k]
  }

  /** The bytes asked for, with headers and rounding. */
  function Demand(ops: seq<Op>): int
  {
    if ops == [] then 0
    else Demand(ops[..|ops| - 1]) + if ops[|ops| - 1].Alloc? then Align8(ops[|ops| - 1].siz + 8) else 0
  }

  lemma {:induction false} DemandGrows(ops: seq<Op>, n: nat)
    requires n <= |ops|
    ensures 0 <= Demand(ops[..n]) <= Demand(ops)
    decreases |ops|
  {
    if n == |ops| {
      assert ops[..n] == ops;
      if n > 0 {
        DemandGrows(ops[..n - 1], n - 1);
        assert ops[..n - 1][..n - 1] == ops[..n - 1];
      }
    } else {
      var m := |ops| - 1;
      DemandGrows(ops[..m], n);
      assert ops[..m][..n] == ops[..n];
    }
  }

  // ---------- the heap stands for it ----------

  /** The words of the object are in the payload at p. */
  ghost predicate Holds(mem: map<int, int>, p: int, o: Object)
  {
    forall k | k in o.words :: 4 * k + 4 <= o.siz && p + 4 * k in mem && mem[p + 4 * k] == o.words[k]
  }

  /** Object o has block b and pointer p. */
  ghost predicate Fits(mem: map<int, int>, o: Object, b: Block, p: int)
  {
    if o.live then b.used && p == b.addr + 4 && p > 0 && b.size - 8 >= o.siz && Holds(mem, p, o) else p == 0
  }

  ghost predicate AllFit(mem: map<int, int>, os: seq<Object>, bs: seq<Block>, ps: seq<int>)
  {
    |os| == |bs| == |ps| && forall j | 0 <= j < |os| :: Fits(mem, os[j], bs[j], ps[j])
  }

  ghost predicate Separate(os: seq<Object>, bs: seq<Block>)
    requires |os| == |bs|
  {
    forall i, j | 0 <= i < j < |os| && os[i].live && os[j].live :: Aside(bs[i], bs[j])
  }

  ghost function Owned(os: seq<Object>, bs: seq<Block>): set<Block>
    requires |os| == |bs|
  {
    set j | 0 <= j < |os| && os[j].live :: bs[j]
  }

  ghost predicate Stands(h: KernelHeap.KernelHeap, os: seq<Object>, bs: seq<Block>, ps: seq<int>)
    reads h
  {
    h.Valid() && AllFit(h.mem, os, bs, ps) && Separate(os, bs) && InUse(h.blocks) == Owned(os, bs)
  }

  /** A live block that is kept holds the same words. */
  lemma KeptHolds(m: map<int, int>, m': map<int, int>, b: Block, p: int, o: Object)
    requires Kept(m, m', b) && p == b.addr + 4 && b.size - 8 >= o.siz && Holds(m, p, o)
    ensures Holds(m', p, o)
  {
    forall k | k in o.words
      ensures 4 * k + 4 <= o.siz && p + 4 * k in m' && m'[p + 4 * k] == o.words[k]
    {
      assert b.addr <= p + 4 * k < End(b);
    }
  }

  /** malloc of something: the other allocations keep their blocks and words. */
  lemma AllocFits(m: map<int, int>, m': map<int, int>, os: seq<Object>, bs: seq<Block>, ps: seq<int>,
                  blocks: seq<Block>, blocks': seq<Block>, b: Block, siz: nat)
    requires AllFit(m, os, bs, ps) && Separate(os, bs) && InUse(blocks) == Owned(os, bs)
    requires KeepsLive(blocks, blocks', m, m') && InUse(blocks') == InUse(blocks) + {b}
    requires siz > 0 && b.used && b.addr > 0 && b.size - 8 >= siz && forall a | a in InUse(blocks) :: Aside(a, b)
    ensures var os', bs' := os + [Object(true, siz, map[])], bs + [b];
      AllFit(m', os', bs', ps + [b.addr + 4]) && Separate(os', bs') && InUse(blocks') == Owned(os', bs')
  {
    var os', bs', ps' := os + [Object(true, siz, map[])], bs + [b], ps + [b.addr + 4];
    forall j | 0 <= j < |os'|
      ensures Fits(m', os'[j], bs'[j], ps'[j])
      ensures j < |os| && os[j].live ==> Aside(bs[j], b)
    {
      if j < |os| && os[j].live {
        assert Fits(m, os[j], bs[j], ps[j]) && bs[j] in InUse(blocks);
        KeptHolds(m, m', bs[j], ps[j], os[j]);
      }
    }
    OwnedMore(os, bs, Object(true, siz, map[]), b);
  }

  lemma OwnedMore(os: seq<Object>, bs: seq<Block>, o: Object, b: Block)
    requires |os| == |bs|
    ensures Owned(os + [o], bs + [b]) == Owned(os, bs) + if o.live then {b} else {}
  {
    var os', bs' := os + [o], bs + [b];
    forall x | x in Owned(os, bs)
      ensures x in Owned(os', bs')
    {
      var j :| 0 <= j < |os| && os[j].live && bs[j] == x;
      assert os'[j].live && bs'[j] == x;
    }
    assert os'[|os|] == o && bs'[|os|] == b;
  }

  /** malloc(0) */
  lemma NullFits(m: map<int, int>, os: seq<Object>, bs: seq<Block>, ps: seq<int>, b: Block)
    requires AllFit(m, os, bs, ps) && Separate(os, bs)
    ensures var os', bs' := os + [Object(false, 0, map[])], bs + [b];
      AllFit(m, os', bs', ps + [0]) && Separate(os', bs') && Owned(os', bs') == Owned(os, bs)
  {
    OwnedMore(os, bs, Object(false, 0, map[]), b);
  }

  /** A store by the owner reaches no other allocation. */
  lemma PutFits(m: map<int, int>, os: seq<Object>, bs: seq<Block>, ps: seq<int>, j: nat, k: nat, v: int)
    requires AllFit(m, os, bs, ps) && Separate(os, bs) && Usable(os, j, k) && ps[j] + 4 * k in m
    ensures var os' := Next(os, Put(j, k, v));
      && AllFit(m[ps[j] + 4 * k := v], os', bs, ps) && Separate(os', bs) && Owned(os', bs) == Owned(os, bs)
  {
    var os', m' := Next(os, Put(j, k, v)), m[ps[j] + 4 * k := v];
    assert Fits(m, os[j], bs[j], ps[j]);
    forall i | 0 <= i < |os|
      ensures Fits(m', os'[i], bs[i], ps[i])
    {
      assert Fits(m, os[i], bs[i], ps[i]);
      if i != j && os[i].live {
        assert Aside(bs[i], bs[j]);
        StoredAside(m, bs[i], ps[i], os[i], ps[j] + 4 * k, v);
      }
    }
    assert forall i | 0 <= i < |os| :: os'[i].live == os[i].live;
    SameOwned(os, os', bs);
  }

  lemma StoredAside(m: map<int, int>, b: Block, p: int, o: Object, a: int, v: int)
    requires p == b.addr + 4 && b.size - 8 >= o.siz && Holds(m, p, o) && (a < b.addr || End(b) <= a)
    ensures Holds(m[a := v], p, o)
  {}

  lemma SameOwned(os: seq<Object>, os': seq<Object>, bs: seq<Block>)
    requires |os| == |os'| == |bs| && forall i | 0 <= i < |os| :: os'[i].live == os[i].live
    ensures Owned(os', bs) == Owned(os, bs)
  {}

  /** free of a live allocation. */
  lemma FreeFits(m: map<int, int>, m': map<int, int>, os: seq<Object>, bs: seq<Block>, ps: seq<int>,
                 blocks: seq<Block>, blocks': seq<Block>, i: nat, j: nat)
    requires AllFit(m, os, bs, ps) && Separate(os, bs) && InUse(blocks) == Owned(os, bs)
    requires j < |os| && os[j].live && i < |blocks| && blocks[i] == bs[j] && blocks' == Freed(blocks, i)
    requires KeepsLive(blocks[..i] + blocks[i + 1..], blocks', m, m') && bs[j] !in blocks[..i] + blocks[i + 1..]
    requires bs[j].size > 0
    ensures var os' := Next(os, Free(j));
      AllFit(m', os', bs, ps[j := 0]) && Separate(os', bs) && InUse(blocks') == Owned(os', bs)
  {
    var rest := blocks[..i] + blocks[i + 1..];
    var os', ps' := Next(os, Free(j)), ps[j := 0];
    FreedInUse(blocks, i);
    OthersInUse(os, bs, blocks, i, j);
    forall l | 0 <= l < |os|
      ensures Fits(m', os'[l], bs[l], ps'[l])
    {
      assert Fits(m, os[l], bs[l], ps[l]);
      if l != j && os[l].live {
        assert bs[l] in InUse(rest);
        KeptHolds(m, m', bs[l], ps[l], os[l]);
      }
    }
    OwnedLess(os, bs, j, rest, blocks);
  }

  lemma OthersInUse(os: seq<Object>, bs: seq<Block>, blocks: seq<Block>, i: nat, j: nat)
    requires |os| == |bs| && Separate(os, bs) && InUse(blocks) == Owned(os, bs)
    requires j < |os| && os[j].live && i < |blocks| && blocks[i] == bs[j] && bs[j].size > 0
    ensures var rest := blocks[..i] + blocks[i + 1..];
      && InUse(rest) == InUse(blocks[..i]) + InUse(blocks[i + 1..]) && InUse(rest) <= InUse(blocks)
      && forall l | 0 <= l < |os| && l != j && os[l].live :: bs[l] in InUse(rest)
  {
    var rest := blocks[..i] + blocks[i + 1..];
    InUseSplit(blocks[..i], blocks[i + 1..]);
    forall l | 0 <= l < |os| && l != j && os[l].live
      ensures bs[l] in InUse(rest)
    {
      assert bs[l] in InUse(blocks) && Aside(bs[l], bs[j]);
      var x :| 0 <= x < |blocks| && blocks[x] == bs[l];
      assert x < i || x > i;
      assert bs[l] == if x < i then rest[x] else rest[x - 1];
    }
  }

  lemma OwnedLess(os: seq<Object>, bs: seq<Block>, j: nat, rest: seq<Block>, blocks: seq<Block>)
    requires |os| == |bs| && j < |os| && InUse(rest) <= InUse(blocks) == Owned(os, bs) && bs[j] !in rest
    requires forall l | 0 <= l < |os| && l != j && os[l].live :: bs[l] in InUse(rest)
    ensures Owned(Next(os, Free(j)), bs) == InUse(rest)
  {
    var os' := Next(os, Free(j));
    forall b | b in InUse(rest)
      ensures b in Owned(os', bs)
    {
      var l :| 0 <= l < |os| && os[l].live && bs[l] == b;
      assert l != j && os'[l].live;
    }
  }

  // ---------- the code ----------

  /** Where a live block is, and that no other place has it. */
  lemma Place(h: KernelHeap.KernelHeap, b: Block) returns (i: nat)
    requires h.Valid() && b in h.blocks
    ensures i < |h.blocks| && h.blocks[i] == b && b !in h.blocks[..i] + h.blocks[i + 1..]
    ensures h.root <= b.addr && End(b) <= h.brk && b.size > 0 && (b.addr + 4) % 8 == 0
  {
    i :| 0 <= i < |h.blocks| && h.blocks[i] == b;
    PayloadsDisjoint(h.mem, h.blocks, h.root, h.brk, h.max);
    forall l | 0 <= l < |h.blocks| && l != i
      ensures h.blocks[l] != b
    {
      if l < i {
        Apart(h.blocks, h.root, h.brk, l, i);
      } else {
        Apart(h.blocks, h.root, h.brk, i, l);
      }
    }
  }

  /** malloc of something, and the block it comes from. */
  method Grab(h: KernelHeap.KernelHeap, siz: nat, garbage: int -> int) returns (p: int, ghost b: Block)
    requires h.Valid() && siz > 0 && h.brk - h.root + Align8(siz + 8) < TAG_LIMIT
    modifies h
    ensures h.Valid() && h.brk <= old(h.brk) + Align8(siz + 8)
    ensures KeepsLive(old(h.blocks), h.blocks, old(h.mem), h.mem)
    ensures b in h.blocks && b.used && p == b.addr + 4 && b.size - 8 >= siz
    ensures InUse(h.blocks) == InUse(old(h.blocks)) + {b} && forall a | a in InUse(old(h.blocks)) :: Aside(a, b)
  {
    p := h.Malloc(siz, garbage);
    ghost var need := Align8(siz + 8);
    b := h.blocks[FirstFit(Room(old(h.blocks), old(h.brk), need), need)];
  }

  method DoAlloc(h: KernelHeap.KernelHeap, siz: nat, garbage: int -> int, ghost os: seq<Object>, ghost bs: seq<Block>,
                 ps: seq<int>)
      returns (p: int, ghost bs': seq<Block>)
    requires Stands(h, os, bs, ps) && h.brk - h.root + Align8(siz + 8) < TAG_LIMIT
    modifies h
    ensures Stands(h, Next(os, Alloc(siz)), bs', ps + [p]) && h.brk <= old(h.brk) + Align8(siz + 8)
  {
    NeedCoversRequest(siz);
    if siz == 0 {
      p := h.Malloc(siz, garbage);
      ghost var b := Block(0, 0, false);
      NullFits(h.mem, os, bs, ps, b);
      bs' := bs + [b];
    } else {
      ghost var b;
      p, b := Grab(h, siz, garbage);
      ghost var i := Place(h, b);
      AllocFits(old(h.mem), h.mem, os, bs, ps, old(h.blocks), h.blocks, b, siz);
      bs' := bs + [b];
    }
  }

  /** The word a store goes to. */
  lemma Target(h: KernelHeap.KernelHeap, os: seq<Object>, bs: seq<Block>, ps: seq<int>, j: nat, k: nat) returns (i: nat)
    requires Stands(h, os, bs, ps) && Usable(os, j, k)
    ensures i < |h.blocks| && h.blocks[i].used && ps[j] + 4 * k in h.mem
    ensures h.blocks[i].addr + 4 <= ps[j] + 4 * k < End(h.blocks[i]) - 4
  {
    assert Fits(h.mem, os[j], bs[j], ps[j]) && bs[j] in InUse(h.blocks);
    i := Place(h, bs[j]);
    assert Word(ps[j] + 4 * k);
  }

  method DoPut(h: KernelHeap.KernelHeap, j: nat, k: nat, v: int,
               ghost os: seq<Object>, ghost bs: seq<Block>, ps: seq<int>)
    requires Stands(h, os, bs, ps) && Usable(os, j, k)
    modifies h`mem
    ensures Stands(h, Next(os, Put(j, k, v)), bs, ps)
  {
    ghost var i := Target(h, os, bs, ps, j, k);
    PutFits(h.mem, os, bs, ps, j, k, v);
    h.Store(ps[j] + 4 * k, v, i);
  }

  method DoFree(h: KernelHeap.KernelHeap, j: nat, ghost os: seq<Object>, ghost bs: seq<Block>, ps: seq<int>)
    requires Stands(h, os, bs, ps) && j < |ps|
    modifies h`mem, h`blocks
    ensures Stands(h, Next(os, Free(j)), bs, ps[j := 0])
  {
    assert Fits(h.mem, os[j], bs[j], ps[j]);
    ghost var i := 0;
    if os[j].live {
      assert bs[j] in InUse(h.blocks);
      i := Place(h, bs[j]);
    }
    h.Free(ps[j], i);
    if os[j].live {
      FreeFits(old(h.mem), h.mem, os, bs, ps, old(h.blocks), h.blocks, i, j);
    } else {
      assert os[j].(live := false) == os[j] && Next(os, Free(j)) == os && ps[j := 0] == ps;
    }
  }

  /** One call by an owner. */
  method Do(h: KernelHeap.KernelHeap, op: Op, garbage: int -> int, sizes: seq<nat>, ps: seq<int>,
            ghost os: seq<Object>, ghost bs: seq<Block>)
      returns (x: int, sizes': seq<nat>, ps': seq<int>, ghost bs': seq<Block>)
    requires Stands(h, os, bs, ps) && Sizes(os, sizes)
    requires op.Alloc? ==> h.brk - h.root + Align8(op.siz + 8) < TAG_LIMIT
    modifies h
    ensures Stands(h, Next(os, op), bs', ps') && Sizes(Next(os, op), sizes') && Right(os, op, x)
    ensures h.brk <= old(h.brk) + if op.Alloc? then Align8(op.siz + 8) else 0
  {
    x, sizes', ps', bs' := 0, sizes, ps, bs;
    match op {
      case Alloc(siz) =>
        var p;
        p, bs' := DoAlloc(h, siz, garbage, os, bs, ps);
        sizes', ps' := sizes + [siz], ps + [p];
      case Load(j, k) =>
        if j < |ps| && ps[j] != 0 && 4 * k + 4 <= sizes[j] && ps[j] + 4 * k in h.mem {
          x := h.mem[ps[j] + 4 * k];
        }
        assert Usable(os, j, k) ==> Fits(h.mem, os[j], bs[j], ps[j]);
      case Put(j, k, v) =>
        if j < |ps| {
          assert Fits(h.mem, os[j], bs[j], ps[j]);
          if ps[j] != 0 && 4 * k + 4 <= sizes[j] {
            DoPut(h, j, k, v, os, bs, ps);
          }
        }
      case Free(j) =>
        if j < |ps| {
          DoFree(h, j, os, bs, ps);
          ps' := ps[j := 0];
        }
    }
  }

  /** The sizes the owners remember. */
  ghost predicate Sizes(os: seq<Object>, sizes: seq<nat>)
  {
    |sizes| == |os| && forall j | 0 <= j < |os| :: sizes[j] == os[j].siz
  }

  /** The results so far. */
  ghost predicate AllRight(ops: seq<Op>, xs: seq<int>)
  {
    |xs| <= |ops| && forall n | 0 <= n < |xs| :: Right(After(ops[..n]), ops[n], xs[n])
  }

  lemma NextRight(ops: seq<Op>, xs: seq<int>, x: int)
    requires AllRight(ops, xs) && |xs| < |ops| && Right(After(ops[..|xs|]), ops[|xs|], x)
    ensures AllRight(ops, xs + [x]) && After(ops[..|xs| + 1]) == Next(After(ops[..|xs|]), ops[|xs|])
  {
    var n := |xs|;
    assert ops[..n + 1][..n] == ops[..n];
  }

  /** Every run from an empty heap that asks for less than a tag can count: loads give what was stored
      last; the blocks in use are those of the live allocations, and pairwise apart. */
  method Run(ops: seq<Op>, garbage: int -> int)
      returns (h: KernelHeap.KernelHeap, xs: seq<int>, ps: seq<int>, ghost bs: seq<Block>)
    requires Demand(ops) < TAG_LIMIT
    ensures |xs| == |ops| && AllRight(ops, xs) && Stands(h, After(ops), bs, ps)
    ensures (forall o | o in After(ops) :: !o.live) ==> |h.blocks| <= 1 && forall b | b in h.blocks :: !b.used
  {
    h := new KernelHeap.KernelHeap(garbage);
    xs, ps, bs := [], [], [];
    var sizes: seq<nat> := [];
    ghost var os: seq<Object> := [];
    for n := 0 to |ops|
      invariant fresh(h) && os == After(ops[..n]) && Stands(h, os, bs, ps) && Sizes(os, sizes)
      invariant |xs| == n && AllRight(ops, xs) && h.brk - h.root <= Demand(ops[..n])
    {
      DemandGrows(ops, n + 1);
      var x;
      ghost var os0 := os;
      os := Next(os, ops[n]);
      NextDemand(ops, n);
      x, sizes, ps, bs := Do(h, ops[n], garbage, sizes, ps, os0, bs);
      NextRight(ops, xs, x);
      xs := xs + [x];
    }
    assert ops[..|ops|] == ops;
    AllFreed(h, os, bs, ps);
  }

  lemma NextDemand(ops: seq<Op>, n: nat)
    requires n < |ops|
    ensures Demand(ops[..n + 1]) == Demand(ops[..n]) + if ops[n].Alloc? then Align8(ops[n].siz + 8) else 0
  {
    assert ops[..n + 1][..n] == ops[..n];
  }

  /** When everything is freed the heap is one free block, or empty. */
  lemma AllFreed(h: KernelHeap.KernelHeap, os: seq<Object>, bs: seq<Block>, ps: seq<int>)
    requires Stands(h, os, bs, ps)
    ensures (forall o | o in os :: !o.live) ==> |h.blocks| <= 1 && forall b | b in h.blocks :: !b.used
  {
    if forall o | o in os :: !o.live {
      forall b | b in h.blocks
        ensures !b.used
      {
        assert b !in Owned(os, bs);
      }
      if |h.blocks| >= 2 {
        FullyCoalesced(h.blocks);
      }
    }
  }
}
