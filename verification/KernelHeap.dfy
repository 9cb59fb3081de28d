/** src/kernel/mm/heap.c: a boundary-tag allocator over words it overwrites in place. */
module KernelHeap {
  import opened HeapBlocks

  class KernelHeap {
    var mem: map<int, int>  // every mapped word of the heap, by address
    var brk: int
    var root: int
    var max: int
    ghost var blocks: seq<Block>

    ghost predicate Valid()
      reads this
    {
      Tiled(mem, blocks, root, brk, max) && Coalesced(blocks)
    }

    /** heap_init; `garbage` is what the first page holds. */
    constructor (garbage: int -> int)
      ensures Valid() && blocks == []
    {
      var hp := HEAP_BASE;
      var m := map w | HEAP_BASE <= w < HEAP_BASE + PAGE_SIZE && w % 4 == 0 :: garbage(w);
      m := m[hp := Tag(0, false)];
      m := m[hp + 4 := Tag(8, true)];
      m := m[hp + 8 := Tag(8, true)];
      m := m[hp + 12 := Tag(0, true)];
      mem := m;
      root := HEAP_BASE + 12;
      brk := HEAP_BASE + 12;
      max := HEAP_BASE + PAGE_SIZE;
      blocks := [];
    }

    /** PUT */
    method Put(a: int, tag: int)
      requires a in mem
      modifies this`mem
      ensures mem == old(mem)[a := tag]
    {
      mem := mem[a := tag];
    }

    ghost predicate Intact()
      reads this
    {
      Tiled(mem, blocks, root, brk, max)
    }

    /** The first half of _merge: the block n after b, when free, becomes part of b. */
    method MergeNext(hdr: int, ghost b: Block, ghost n: Block)
      requires hdr == b.addr && Sized(b) && Tagged(mem, b) && !b.used
      requires n.addr == End(b) && (Sized(n) || (n.size == 0 && n.used)) && n.addr in mem
      requires mem[n.addr] == Tag(n.size, n.used) && (!n.used ==> Tagged(mem, n))
      modifies this`mem
      ensures mem == FuseWords(old(mem), b, n)
    {
      TagRoundTrip(b.size, false);
      TagRoundTrip(n.size, n.used);
      var ftr := hdr + TagSize(mem[hdr]) - 4;
      var next := ftr + 4;
      if !TagUsed(mem[next]) && TagSize(mem[next]) != 0 {
        var nextFtr := next + TagSize(mem[next]) - 4;
        assert mem[next] == mem[nextFtr];
        Put(hdr, Tag(TagSize(mem[hdr]) + TagSize(mem[next]), false));
        Put(nextFtr, mem[hdr]);
      }
    }

    /** The second half of _merge: b becomes part of the block p before it, when free. */
    method MergePrev(hdr: int, ghost p: Block, ghost b: Block)
      requires hdr == b.addr && Sized(b) && Tagged(mem, b) && !b.used
      requires End(p) == b.addr && Sized(p) && b.addr - 4 in mem
      requires mem[b.addr - 4] == Tag(p.size, p.used)
      requires !p.used ==> Tagged(mem, p) && p.size + b.size < TAG_LIMIT
      modifies this`mem
      ensures mem == FuseWords(old(mem), p, b)
    {
      TagRoundTrip(b.size, false);
      TagRoundTrip(p.size, p.used);
      TagRoundTrip(p.size + b.size, false);
      if !TagUsed(mem[hdr - 4]) && TagSize(mem[hdr - 4]) != 0 {
        var prevHdr := hdr - TagSize(mem[hdr - 4]);
        assert mem[prevHdr] == mem[hdr - 4];
        Put(prevHdr, Tag(TagSize(mem[prevHdr]) + TagSize(mem[hdr]), false));
        Put(prevHdr + TagSize(mem[prevHdr]) - 4, mem[prevHdr]);
      }
    }

    /** _merge */
    method Merge(hdr: int, ghost pre: seq<Block>, ghost b: Block, ghost post: seq<Block>)
      requires Intact() && blocks == pre + [b] + post && hdr == b.addr && !b.used
      modifies this`mem, this`blocks
      ensures Intact() && blocks == Merged(pre, b, post)
      ensures KeepsLive(old(blocks), blocks, old(mem), mem)
    {
      MergeTiled(mem, root, brk, max, pre, b, post);
      NextWords(mem, root, brk, max, pre, b, post);
      FuseNext(mem, root, brk, max, pre, b, post);
      MergeNext(hdr, b, Follower(b, post));
      PrevWords(mem, root, brk, max, pre, FusedNext(b, post), RestAfter(post));
      MergePrev(hdr, Leader(pre, FusedNext(b, post)), FusedNext(b, post));
      MergeKeepsLive(pre, b, post, root, brk, old(mem), mem);
      blocks := Merged(pre, b, post);
    }

    /** free.  The caller passes null, an address above the heap, or the payload of the
        used block i. */
    method Free(addr: int, ghost i: nat)
      requires Valid()
      requires addr == 0 || addr > max || (i < |blocks| && blocks[i].used && addr == blocks[i].addr + 4)
      modifies this`mem, this`blocks
      ensures Valid()
      ensures addr == 0 || addr > max ==> blocks == old(blocks) && mem == old(mem)
      ensures addr != 0 && addr <= max ==>
        && blocks == Freed(old(blocks), i)
        && KeepsLive(old(blocks)[..i] + old(blocks)[i + 1..], blocks, old(mem), mem)
    {
      if addr == 0 || addr > max {
        return;
      }
      ghost var pre, b, post := blocks[..i], blocks[i], blocks[i + 1..];
      ghost var b' := b.(used := false);
      assert pre + [b] + post == blocks;
      RetagOne(mem, root, brk, max, pre, b, post, false);
      var hdr := addr - 4;
      FreeWords(hdr, b);
      RetagKeepsLive(pre, b, post, root, brk, old(mem), mem);
      ghost var m1 := mem;
      blocks := pre + [b'] + post;
      MergedCoalesced(pre, b', post);
      Merge(hdr, pre, b', post);
      KeepsLiveTrans(pre + post, pre + [b'] + post, blocks, old(mem), m1, mem);
    }

    /** The words free writes before it merges. */
    method FreeWords(hdr: int, ghost b: Block)
      requires Sized(b) && Tagged(mem, b) && hdr == b.addr && b.used
      modifies this`mem
      ensures mem == old(mem)[b.addr := Tag(b.size, false)][End(b) - 4 := Tag(b.size, false)]
    {
      TagRoundTrip(b.size, true);
      var ftr := hdr + TagSize(mem[hdr]) - 4;
      if mem[hdr] != mem[ftr] {
        return;
      }
      assert TagUsed(mem[hdr]);
      Put(hdr, Tag(TagSize(mem[hdr]), false));
      Put(ftr, Tag(TagSize(mem[ftr]), false));
    }

    /** pmm_allocpages and vmap_map at the end of the heap: more mapped words, of any content. */
    method MapPages(pages: nat, garbage: int -> int)
      requires AllMapped(mem, max)
      modifies this`mem, this`max
      ensures max == old(max) + pages * PAGE_SIZE && AllMapped(mem, max)
      ensures forall w | w in old(mem) && w < old(max) :: w in mem && mem[w] == old(mem)[w]
      ensures forall w | w in old(mem) :: w in mem
    {
      var end := max + pages * PAGE_SIZE;
      mem := mem + map w | max <= w < end && w % 4 == 0 :: garbage(w);
      max := end;
    }

    method Sbrk(siz: int) returns (p: int)
      modifies this`brk
      ensures brk == old(brk) + Align8(siz) && p == brk - siz
    {
      brk := brk + Align8(siz);
      return brk - siz;
    }

    /** The pages _extend_heap maps, if any. */
    method Reserve(siz: int, garbage: int -> int)
      requires root % 8 == 4 && (brk - root) % 8 == 0 && siz % 8 == 0
      requires max % PAGE_SIZE == 0 && AllMapped(mem, max)
      modifies this`mem, this`max
      ensures max >= old(max) && max % PAGE_SIZE == 0 && AllMapped(mem, max)
      ensures brk + siz < max
      ensures forall w | w in old(mem) :: w in mem && (w < old(max) ==> mem[w] == old(mem)[w])
    {
      var diff := brk + siz - max;
      if diff > 0 {
        var pages := (diff + PAGE_SIZE - 1) / PAGE_SIZE;
        EpilogueFits(root, brk, siz, max, pages);
        MapPages(pages, garbage);
      } else {
        EpilogueFits(root, brk, siz, max, 0);
      }
    }

    /** The words _extend_heap writes. */
    method AppendWords(siz: int) returns (hdr: int)
      requires siz % 8 == 0 && brk in mem && brk + siz - 4 in mem && brk + siz in mem
      modifies this`mem, this`brk
      ensures mem == HeapBlocks.AppendWords(old(mem), old(brk), siz)
      ensures brk == old(brk) + siz && hdr == old(brk)
    {
      Align8Same(siz);
      hdr := Sbrk(siz);
      Put(hdr, Tag(siz, false));
      Put(hdr + siz - 4, Tag(siz, false));
      Put(hdr + siz, Tag(0, true));
    }

    /** _extend_heap on the words: m1 is the memory once enough of it is mapped. */
    method AppendMapped(siz: int, garbage: int -> int) returns (hdr: int, ghost m1: map<int, int>)
      requires root == HEAP_BASE + 12 <= brk && (brk - root) % 8 == 0 && 8 <= siz && siz % 8 == 0
      requires max % PAGE_SIZE == 0 && AllMapped(mem, max)
      modifies this`mem, this`brk, this`max
      ensures hdr == old(brk) && brk == old(brk) + siz < max
      ensures max >= old(max) && max % PAGE_SIZE == 0
      ensures Extends(old(mem), m1, old(max)) && AllMapped(m1, max)
      ensures mem == HeapBlocks.AppendWords(m1, hdr, siz)
    {
      Reserve(siz, garbage);
      m1 := mem;
      AppendRoom(mem, root, brk, max, siz);
      hdr := AppendWords(siz);
    }

    /** _extend_heap before it merges: a free block of siz bytes at the old brk. */
    method AppendBlock(siz: int, garbage: int -> int) returns (hdr: int)
      requires Intact() && 8 <= siz && siz % 8 == 0 && brk - root + siz < TAG_LIMIT
      modifies this
      ensures Intact() && root == old(root) && brk == old(brk) + siz && hdr == old(brk)
      ensures blocks == old(blocks) + [Block(old(brk), siz, false)]
      ensures KeepsLive(old(blocks), blocks, old(mem), mem)
    {
      ChainGrows(blocks, root, brk);
      ghost var m1;
      hdr, m1 := AppendMapped(siz, garbage);
      Appended(old(mem), m1, blocks, root, hdr, old(max), max, siz);
      AppendKeepsLive(old(mem), m1, blocks, root, hdr, old(max), siz);
      blocks := blocks + [Block(hdr, siz, false)];
    }

    /** _extend_heap */
    method ExtendHeap(siz0: int, garbage: int -> int)
      requires Valid() && 8 <= siz0 && siz0 % 8 == 0 && brk - root + siz0 < TAG_LIMIT
      modifies this
      ensures Valid() && root == old(root) && brk == old(brk) + siz0
      ensures blocks == Grown(old(blocks), old(brk), siz0)
      ensures KeepsLive(old(blocks), blocks, old(mem), mem)
    {
      Align8Same(siz0);
      var siz := Align8(siz0);
      ghost var bs, b := blocks, Block(brk, siz, false);
      MergedCoalesced(bs, b, []);
      var hdr := AppendBlock(siz, garbage);
      assert bs + [b] + [] == blocks;
      ghost var bs1, m1 := blocks, mem;
      Merge(hdr, bs, b, []);
      KeepsLiveTrans(bs, bs1, blocks, old(mem), m1, mem);
    }

    /** The words malloc writes when it takes the free block b. */
    method TakeWords(curr: int, siz: int, ghost b: Block)
      requires Sized(b) && Tagged(mem, b) && curr == b.addr && 8 <= siz <= b.size && siz % 8 == 0 && !b.used
      requires siz < b.size ==> b.addr + siz - 4 in mem && b.addr + siz in mem
      modifies this`mem
      ensures mem == if b.size > siz then SplitWords(old(mem), b, siz)
                     else old(mem)[b.addr := Tag(b.size, true)][End(b) - 4 := Tag(b.size, true)]
    {
      TagRoundTrip(b.size, false);
      TagRoundTrip(b.size, true);
      if TagSize(mem[curr]) > siz {
        Put(curr + TagSize(mem[curr]) - 4, Tag(TagSize(mem[curr]) - siz, false));
        Put(curr + siz, Tag(TagSize(mem[curr]) - siz, false));
        Put(curr, Tag(siz, true));
        Put(curr + siz - 4, Tag(siz, true));
      } else {
        Put(curr, Tag(siz, true));
        Put(curr + TagSize(mem[curr]) - 4, mem[curr]);
      }
    }

    method Take(curr: int, siz: int, ghost i: nat)
      requires Valid() && i < |blocks| && curr == blocks[i].addr && Fits(blocks[i], siz)
      requires 8 <= siz && siz % 8 == 0
      modifies this`mem, this`blocks
      ensures Valid() && blocks == AllocatedAt(old(blocks), i, siz)
      ensures KeepsLive(old(blocks), blocks, old(mem), mem)
    {
      ghost var pre, b, post := blocks[..i], blocks[i], blocks[i + 1..];
      assert pre + [b] + post == blocks;
      AllocatedCoalesced(blocks, i, siz);
      RetagOne(mem, root, brk, max, pre, b, post, true);
      if b.size > siz {
        SplitRoom(mem, root, brk, max, pre, b, post, siz);
        SplitOne(mem, root, brk, max, pre, b, post, siz);
      }
      TakeWords(curr, siz, b);
      TakeKeepsLive(blocks, root, brk, i, siz, old(mem), mem);
      blocks := AllocatedAt(blocks, i, siz);
    }

    /** The tag malloc reads at block i, or at the epilogue of an empty heap. */
    lemma TagAt(i: nat)
      requires Intact() && (i < |blocks| || blocks == [])
      ensures blocks == [] ==> root == brk && mem[root] == Tag(0, true)
      ensures i < |blocks| ==>
        && Sized(blocks[i]) && Tagged(mem, blocks[i])
        && (End(blocks[i]) < brk <==> i + 1 < |blocks|)
        && (i + 1 < |blocks| ==> blocks[i + 1].addr == End(blocks[i]))
    {
      if i + 1 < |blocks| {
        Apart(blocks, root, brk, i, i + 1);
      }
    }

    /** What malloc reads at block i: whether it fits, and where the next block begins. */
    method Probe(curr: int, siz: int, ghost i: nat) returns (fits: bool, next: int)
      requires Intact() && siz > 0
      requires if blocks == [] then i == 0 && curr == root else i < |blocks| && curr == blocks[i].addr
      ensures fits <==> blocks != [] && Fits(blocks[i], siz)
      ensures next < brk <==> i + 1 < |blocks|
      ensures i + 1 < |blocks| ==> next == blocks[i + 1].addr
    {
      TagAt(i);
      ghost var b := if blocks == [] then Block(root, 0, true) else blocks[i];
      TagRoundTrip(b.size, b.used);
      fits := !TagUsed(mem[curr]) && TagSize(mem[curr]) >= siz;
      next := curr + TagSize(mem[curr]);
    }

    /** No block of bs had room, and the heap has been extended. */
    ghost predicate Widened(bs: seq<Block>, m: map<int, int>, brk0: int, siz: int)
      reads this
    {
      && FirstFit(bs, siz) == |bs| && blocks == Grown(bs, brk0, siz) && brk == brk0 + siz
      && blocks != [] && Fits(blocks[|blocks| - 1], siz) && KeepsLive(bs, blocks, m, mem)
    }

    /** What the scan does at the end of the heap. The blocks it has passed keep their places. */
    method Widen(siz: int, garbage: int -> int)
      requires Valid() && 16 <= siz && siz % 8 == 0 && brk - root + siz < TAG_LIMIT
      requires forall j | 0 <= j < |blocks| :: !Fits(blocks[j], siz)
      modifies this
      ensures Valid() && root == old(root) && Widened(old(blocks), old(mem), old(brk), siz)
      ensures |blocks| >= |old(blocks)| && blocks[0].addr == root
      ensures forall j | 0 <= j < |old(blocks)| :: blocks[j].addr == old(blocks)[j].addr
      ensures forall j | 0 <= j < |old(blocks)| - 1 :: blocks[j] == old(blocks)[j]
    {
      FirstFitIs(blocks, siz, |blocks|);
      GrownShape(blocks, brk, root, siz);
      ExtendHeap(siz, garbage);
    }

    /** The scan of malloc: it ends at the first block that fits, after extending the heap
        at most once. */
    method Scan(siz: int, garbage: int -> int) returns (curr: int, ghost i: nat)
      requires Valid() && 16 <= siz && siz % 8 == 0
      requires FirstFit(blocks, siz) == |blocks| ==> brk - root + siz < TAG_LIMIT
      modifies this
      ensures Valid() && KeepsLive(old(blocks), blocks, old(mem), mem)
      ensures blocks == Room(old(blocks), old(brk), siz) && brk <= old(brk) + siz
      ensures i == FirstFit(blocks, siz) < |blocks| && Fits(blocks[i], siz) && curr == blocks[i].addr
    {
      curr, i := root, 0;
      ghost var extended := false;
      while true
        invariant Valid()
        invariant !extended ==> blocks == old(blocks) && mem == old(mem) && brk == old(brk) && root == old(root)
        invariant extended ==> Widened(old(blocks), old(mem), old(brk), siz)
        invariant if blocks == [] then i == 0 && curr == root else i < |blocks| && curr == blocks[i].addr
        invariant forall j | 0 <= j < i :: !Fits(blocks[j], siz)
        decreases !extended, |blocks| - i
      {
        var fits, next := Probe(curr, siz, i);
        if fits {
          FirstFitIs(blocks, siz, i);
          return;
        }
        if !(next < brk) {
          FirstFitIs(blocks, siz, |blocks|);
          Widen(siz, garbage);
          extended := true;
        } else {
          curr := next;
          i := i + 1;
        }
      }
    }

    /** malloc.  First fit over the blocks as they are, or over the blocks grown by need
        bytes when none fits.  The request must fit below the 2^29 bytes a tag can hold. */
    method Malloc(siz0: nat, garbage: int -> int) returns (p: int)
      requires Valid()
      requires siz0 > 0 && FirstFit(blocks, Align8(siz0 + 8)) == |blocks| ==>
        brk - root + Align8(siz0 + 8) < TAG_LIMIT
      modifies this
      ensures Valid() && KeepsLive(old(blocks), blocks, old(mem), mem)
      ensures siz0 == 0 ==> p == 0 && blocks == old(blocks) && mem == old(mem)
      ensures siz0 > 0 ==>
        var need := Align8(siz0 + 8);
        var room := Room(old(blocks), old(brk), need);
        var i := FirstFit(room, need);
        && i < |room| && blocks == AllocatedAt(room, i, need)
        && i < |blocks| && p == blocks[i].addr + 4 && blocks[i].used && blocks[i].size - 8 >= siz0
        && brk <= old(brk) + need
        && InUse(blocks) == InUse(old(blocks)) + {blocks[i]}
        && forall b | b in InUse(old(blocks)) :: Aside(b, blocks[i])
    {
      if siz0 == 0 {
        return 0;
      }
      var siz := Align8(siz0 + 8);
      NeedCoversRequest(siz0);
      ghost var i;
      p, i := Scan(siz, garbage);
      ghost var bs, m1 := blocks, mem;
      AllocatedBlock(blocks, i, siz);
      TakenAside(blocks, root, brk, i, siz);
      AllocatedInUse(blocks, i, siz);
      RoomInUse(old(blocks), old(brk), siz);
      Take(p, siz, i);
      KeepsLiveTrans(old(blocks), bs, blocks, old(mem), m1, mem);
      p := p + 4;
    }

    /** A store by the owner of a block into its payload never disturbs the heap. */
    method Store(a: int, v: int, ghost i: nat)
      requires Valid() && i < |blocks| && blocks[i].used
      requires blocks[i].addr + 4 <= a < End(blocks[i]) - 4 && a in mem
      modifies this`mem
      ensures Valid() && mem == old(mem)[a := v]
    {
      ghost var pre, b, post := blocks[..i], blocks[i], blocks[i + 1..];
      assert pre + [b] + post == blocks;
      Around(mem, root, brk, max, pre, b, post);
      mem := mem[a := v];
      Rewritten(old(mem), mem, root, brk, max, pre, [b], [b], post);
    }
  }
}
