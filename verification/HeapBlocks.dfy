/** The blocks of the kernel heap as a sequence, and what the allocator does to it.

`Tagged(m, b)` ties a block to its header and footer words in memory; the other
functions say which sequence of blocks malloc and free turn a given one into,
without mentioning memory.
*/
module HeapBlocks {

  datatype Block = Block(addr: int, size: int, used: bool)

  function End(b: Block): int
  {
    b.addr + b.size
  }

  /** SET: a tag holds the size above three flag bits, in 32 bits. */
  function Tag(size: int, used: bool): int
  {
    (size * 8 + if used then 1 else 0) % 0x1_0000_0000
  }

  const TAG_LIMIT := 0x2000_0000

  function TagSize(tag: int): int
  {
    tag / 8
  }

  function TagUsed(tag: int): bool
  {
    tag % 2 == 1
  }

  lemma TagRoundTrip(size: int, used: bool)
    requires 0 <= size
    ensures TagSize(Tag(size, used)) == size <==> size < TAG_LIMIT
    ensures TagUsed(Tag(size, used)) == used
  {}

  function Align8(n: int): int
  {
    (n + 7) / 8 * 8
  }

  ghost predicate Tagged(m: map<int, int>, b: Block)
  {
    && b.addr in m && End(b) - 4 in m
    && m[b.addr] == Tag(b.size, b.used) && m[End(b) - 4] == Tag(b.size, b.used)
  }

  ghost predicate Sized(b: Block)
  {
    8 <= b.size < TAG_LIMIT && b.size % 8 == 0
  }

  /** The blocks follow one another from lo to hi without a gap. */
  ghost predicate Chained(bs: seq<Block>, lo: int, hi: int)
  {
    && (bs == [] ==> lo == hi)
    && (bs != [] ==> bs[0].addr == lo && End(bs[|bs| - 1]) == hi)
    && (forall i | 0 <= i < |bs| :: Sized(bs[i]))
    && (forall i, j | 0 <= i < j < |bs| && j == i + 1 :: End(bs[i]) == bs[j].addr)
  }

  /** Where the block before index i ends. */
  ghost function Start(bs: seq<Block>, lo: int, i: nat): int
    requires i <= |bs|
  {
    if i == 0 then lo else End(bs[i - 1])
  }

  lemma ChainSplit(bs: seq<Block>, lo: int, hi: int, i: nat)
    requires Chained(bs, lo, hi) && i <= |bs|
    ensures Chained(bs[..i], lo, Start(bs, lo, i)) && Chained(bs[i..], Start(bs, lo, i), hi)
  {}

  lemma ChainJoin(xs: seq<Block>, ys: seq<Block>, lo: int, mid: int, hi: int)
    requires Chained(xs, lo, mid) && Chained(ys, mid, hi)
    ensures Chained(xs + ys, lo, hi)
  {}

  lemma {:induction false} ChainGrows(bs: seq<Block>, lo: int, hi: int)
    requires Chained(bs, lo, hi)
    ensures lo <= hi && (hi - lo) % 8 == 0
    ensures forall b | b in bs :: lo <= b.addr && End(b) <= hi && (b.addr - lo) % 8 == 0
    decreases |bs|
  {
    if bs == [] {
    } else {
      var n := |bs| - 1;
      ChainSplit(bs, lo, hi, n);
      ChainGrows(bs[..n], lo, bs[n].addr);
      assert forall b | b in bs :: b in bs[..n] || b == bs[n];
    }
  }

  lemma ChainThree(pre: seq<Block>, mid: seq<Block>, post: seq<Block>, lo: int, hi: int)
    requires mid != [] && Chained(pre + mid + post, lo, hi)
    ensures Chained(pre, lo, mid[0].addr) && Chained(post, End(mid[|mid| - 1]), hi)
    ensures Chained(mid, mid[0].addr, End(mid[|mid| - 1]))
  {
    var bs := pre + mid + post;
    var i, j := |pre|, |pre| + |mid|;
    ChainSplit(bs, lo, hi, j);
    ChainSplit(bs[..j], lo, Start(bs, lo, j), i);
    assert bs[..j] == pre + mid && bs[j..] == post && (pre + mid)[..i] == pre && (pre + mid)[i..] == mid;
    assert bs[j - 1] == mid[|mid| - 1];
  }

  ghost predicate AllTagged(m: map<int, int>, bs: seq<Block>)
  {
    forall i | 0 <= i < |bs| :: Tagged(m, bs[i])
  }

  /** m and m' agree outside [lo, hi). */
  ghost predicate SameOutside(m: map<int, int>, m': map<int, int>, lo: int, hi: int)
  {
    forall w | w in m :: w in m' && (w < lo || hi <= w ==> m'[w] == m[w])
  }

  lemma TaggedFrame(m: map<int, int>, m': map<int, int>, bs: seq<Block>, lo: int, hi: int, from: int, to: int)
    requires Chained(bs, lo, hi) && AllTagged(m, bs) && SameOutside(m, m', from, to)
    requires hi <= from || to <= lo
    ensures AllTagged(m', bs)
  {
    ChainGrows(bs, lo, hi);
    forall i | 0 <= i < |bs|
      ensures Tagged(m', bs[i])
    {
      assert bs[i] in bs;
    }
  }

  lemma Rechained(lo: int, hi: int, pre: seq<Block>, mid: seq<Block>, mid': seq<Block>, post: seq<Block>)
    requires mid != [] && Chained(pre + mid + post, lo, hi)
    requires Chained(mid', mid[0].addr, End(mid[|mid| - 1]))
    ensures Chained(pre + mid' + post, lo, hi)
  {
    ChainThree(pre, mid, post, lo, hi);
    ChainJoin(pre, mid', lo, mid[0].addr, End(mid[|mid| - 1]));
    ChainJoin(pre + mid', post, lo, End(mid[|mid| - 1]), hi);
  }

  lemma TaggedConcat(m: map<int, int>, xs: seq<Block>, ys: seq<Block>)
    ensures AllTagged(m, xs + ys) <==> AllTagged(m, xs) && AllTagged(m, ys)
  {
    assert forall i | 0 <= i < |xs| :: xs[i] == (xs + ys)[i];
    assert forall i | 0 <= i < |ys| :: ys[i] == (xs + ys)[|xs| + i];
  }

  /** Rewriting the words of some neighbouring blocks, so that they now hold the tags of
      other blocks over the same range, keeps all other tags. */
  lemma Retagged(m: map<int, int>, m': map<int, int>, lo: int, hi: int,
                 pre: seq<Block>, mid: seq<Block>, mid': seq<Block>, post: seq<Block>)
    requires mid != [] && Chained(pre + mid + post, lo, hi) && AllTagged(m, pre + mid + post)
    requires AllTagged(m', mid')
    requires SameOutside(m, m', mid[0].addr, End(mid[|mid| - 1]))
    ensures AllTagged(m', pre + mid' + post)
  {
    var a, e := mid[0].addr, End(mid[|mid| - 1]);
    ChainThree(pre, mid, post, lo, hi);
    TaggedConcat(m, pre + mid, post);
    TaggedConcat(m, pre, mid);
    TaggedFrame(m, m', pre, lo, a, a, e);
    TaggedFrame(m, m', post, e, hi, a, e);
    TaggedConcat(m', pre, mid');
    TaggedConcat(m', pre + mid', post);
  }

  // ---------- the whole heap ----------

  const HEAP_BASE: int := 0xffff_8100_0000_0000
  const PAGE_SIZE: int := 4096

  ghost predicate Word(w: int)
  {
    w % 4 == 0
  }

  ghost predicate AllMapped(m: map<int, int>, max: int)
  {
    forall w {:trigger Word(w)} | Word(w) && HEAP_BASE <= w < max :: w in m
  }

  /** The blocks tile [root, brk), between the prologue and a zero-size epilogue at brk,
      header equals footer, and everything is mapped. */
  ghost predicate Tiled(m: map<int, int>, bs: seq<Block>, root: int, brk: int, max: int)
  {
    && root == HEAP_BASE + 12 && brk < max && max % PAGE_SIZE == 0
    && AllMapped(m, max)
    && Chained(bs, root, brk) && AllTagged(m, bs) && brk - root < TAG_LIMIT
    && root - 4 in m && m[root - 4] == Tag(8, true)
    && brk in m && m[brk] == Tag(0, true)
  }

  lemma MidInside(pre: seq<Block>, mid: seq<Block>, post: seq<Block>, lo: int, hi: int)
    requires mid != [] && Chained(pre + mid + post, lo, hi)
    ensures lo <= mid[0].addr && End(mid[|mid| - 1]) <= hi
  {
    ChainThree(pre, mid, post, lo, hi);
    ChainGrows(pre, lo, mid[0].addr);
    ChainGrows(post, End(mid[|mid| - 1]), hi);
  }

  /** Retagging the range of some neighbouring blocks keeps the heap tiled. */
  lemma Rewritten(m: map<int, int>, m': map<int, int>, root: int, brk: int, max: int,
                  pre: seq<Block>, mid: seq<Block>, mid': seq<Block>, post: seq<Block>)
    requires mid != [] && Tiled(m, pre + mid + post, root, brk, max)
    requires Chained(mid', mid[0].addr, End(mid[|mid| - 1])) && AllTagged(m', mid')
    requires SameOutside(m, m', mid[0].addr, End(mid[|mid| - 1]))
    ensures Tiled(m', pre + mid' + post, root, brk, max)
  {
    Rechained(root, brk, pre, mid, mid', post);
    Retagged(m, m', root, brk, pre, mid, mid', post);
    MidInside(pre, mid, post, root, brk);
  }

  /** A block, and the words just before and just after it. */
  lemma Around(m: map<int, int>, root: int, brk: int, max: int, pre: seq<Block>, b: Block, post: seq<Block>)
    requires Tiled(m, pre + [b] + post, root, brk, max)
    ensures Sized(b) && Tagged(m, b)
    ensures End(b) in m && m[End(b)] == if post == [] then Tag(0, true) else Tag(post[0].size, post[0].used)
    ensures post != [] ==> Sized(post[0]) && post[0].addr == End(b) && Tagged(m, post[0])
    ensures b.addr - 4 in m
    ensures m[b.addr - 4] == if pre == [] then Tag(8, true) else Tag(pre[|pre| - 1].size, pre[|pre| - 1].used)
    ensures pre != [] ==> var p := pre[|pre| - 1]; Sized(p) && End(p) == b.addr && Tagged(m, p)
  {
    var i, blocks := |pre|, pre + [b] + post;
    assert blocks[i] == b && (pre != [] ==> blocks[i - 1] == pre[i - 1]) && (post != [] ==> blocks[i + 1] == post[0]);
    if post == [] {
      assert blocks[|blocks| - 1] == b;
    }
    if pre == [] {
      assert blocks[0] == b;
    }
  }

  // ---------- what the operations do ----------

  /** No two neighbours are both free. */
  ghost predicate Coalesced(bs: seq<Block>)
  {
    forall i, j | 0 <= i < j < |bs| && j == i + 1 :: bs[i].used || bs[j].used
  }

  ghost function Fused(a: Block, b: Block): Block
  {
    Block(a.addr, a.size + b.size, false)
  }

  /** The two words written when the blocks a and b become one. */
  lemma FusedTags(m: map<int, int>, a: Block, b: Block)
    requires 8 <= a.size && 8 <= b.size && End(a) == b.addr && Tagged(m, a) && Tagged(m, b)
    ensures var tag := Tag(a.size + b.size, false);
      var m' := m[a.addr := tag][End(b) - 4 := tag];
      AllTagged(m', [Fused(a, b)]) && SameOutside(m, m', a.addr, End(b))
  {}

  lemma FusedChain(a: Block, b: Block)
    requires Sized(a) && Sized(b) && End(a) == b.addr && a.size + b.size < TAG_LIMIT
    ensures Chained([Fused(a, b)], a.addr, End(b))
  {
    var x, y := a.size / 8, b.size / 8;
    assert a.size + b.size == 8 * (x + y);
  }

  ghost predicate NextFree(post: seq<Block>)
  {
    post != [] && !post[0].used
  }

  ghost predicate PrevFree(pre: seq<Block>)
  {
    pre != [] && !pre[|pre| - 1].used
  }

  ghost function FusedNext(b: Block, post: seq<Block>): Block
  {
    if NextFree(post) then Fused(b, post[0]) else b
  }

  ghost function RestAfter(post: seq<Block>): seq<Block>
  {
    if NextFree(post) then post[1..] else post
  }

  /** _merge: a free block b between pre and post swallows its free neighbours. */
  ghost function Merged(pre: seq<Block>, b: Block, post: seq<Block>): seq<Block>
  {
    if PrevFree(pre)
    then pre[..|pre| - 1] + [Fused(pre[|pre| - 1], FusedNext(b, post))] + RestAfter(post)
    else pre + [FusedNext(b, post)] + RestAfter(post)
  }

  /** Where the block that _merge leaves begins. */
  ghost function MergedAddr(pre: seq<Block>, b: Block): int
  {
    if PrevFree(pre) then pre[|pre| - 1].addr else b.addr
  }

  lemma MergedCoalesced(pre: seq<Block>, b: Block, post: seq<Block>)
    requires Coalesced(pre) && Coalesced(post) && !b.used
    ensures Coalesced(Merged(pre, b, post))
  {}

  /** Fusing two neighbours anywhere in a tiled heap. */
  lemma FusedTiled(m: map<int, int>, root: int, brk: int, max: int,
                   pre: seq<Block>, a: Block, b: Block, post: seq<Block>)
    requires Tiled(m, pre + [a, b] + post, root, brk, max)
    ensures Sized(a) && Sized(b) && End(a) == b.addr && Tagged(m, a) && Tagged(m, b)
    ensures var tag := Tag(a.size + b.size, false);
      var m' := m[a.addr := tag][End(b) - 4 := tag];
      && Tiled(m', pre + [Fused(a, b)] + post, root, brk, max)
      && SameOutside(m, m', a.addr, End(b))
  {
    MidInside(pre, [a, b], post, root, brk);
    assert pre + [a] + ([b] + post) == pre + [a, b] + post;
    Around(m, root, brk, max, pre, a, [b] + post);
    FusedChain(a, b);
    FusedTags(m, a, b);
    var tag := Tag(a.size + b.size, false);
    Rewritten(m, m[a.addr := tag][End(b) - 4 := tag], root, brk, max, pre, [a, b], [Fused(a, b)], post);
  }

  /** What follows b in memory: a block, or the epilogue. */
  ghost function Follower(b: Block, post: seq<Block>): Block
  {
    if post == [] then Block(End(b), 0, true) else post[0]
  }

  /** What precedes b in memory: a block, or the prologue. */
  ghost function Leader(pre: seq<Block>, b: Block): Block
  {
    if pre == [] then Block(b.addr - 8, 8, true) else pre[|pre| - 1]
  }

  ghost function FuseWords(m: map<int, int>, a: Block, b: Block): map<int, int>
  {
    var tag := Tag(a.size + b.size, false);
    if a.used || b.used then m else m[a.addr := tag][End(b) - 4 := tag]
  }

  lemma TakeNext(pre: seq<Block>, b: Block, post: seq<Block>)
    requires post != []
    ensures pre + [b, post[0]] + post[1..] == pre + [b] + post
  {}

  lemma TakePrev(pre: seq<Block>, b: Block, post: seq<Block>)
    requires pre != []
    ensures pre[..|pre| - 1] + [pre[|pre| - 1], b] + post == pre + [b] + post
  {}

  lemma NextWords(m: map<int, int>, root: int, brk: int, max: int, pre: seq<Block>, b: Block, post: seq<Block>)
    requires Tiled(m, pre + [b] + post, root, brk, max) && !b.used
    ensures var n := Follower(b, post);
      && (Sized(n) || (n.size == 0 && n.used)) && Sized(b) && Tagged(m, b)
      && n.addr == End(b) && n.addr in m && m[n.addr] == Tag(n.size, n.used)
      && (!n.used ==> Tagged(m, n))
  {
    Around(m, root, brk, max, pre, b, post);
  }

  lemma FuseNext(m: map<int, int>, root: int, brk: int, max: int, pre: seq<Block>, b: Block, post: seq<Block>)
    requires Tiled(m, pre + [b] + post, root, brk, max) && !b.used
    ensures var m' := FuseWords(m, b, Follower(b, post));
      && Tiled(m', pre + [FusedNext(b, post)] + RestAfter(post), root, brk, max)
      && SameOutside(m, m', b.addr, End(FusedNext(b, post)))
  {
    if NextFree(post) {
      TakeNext(pre, b, post);
      FusedTiled(m, root, brk, max, pre, b, post[0], post[1..]);
    }
  }

  lemma PrevWords(m: map<int, int>, root: int, brk: int, max: int, pre: seq<Block>, b: Block, post: seq<Block>)
    requires Tiled(m, pre + [b] + post, root, brk, max) && !b.used
    ensures var p := Leader(pre, b);
      && Sized(p) && Sized(b) && Tagged(m, b)
      && End(p) == b.addr && b.addr - 4 in m && m[b.addr - 4] == Tag(p.size, p.used)
      && (!p.used ==> Tagged(m, p) && p.size + b.size < TAG_LIMIT)
  {
    Around(m, root, brk, max, pre, b, post);
    if PrevFree(pre) {
      var n := |pre| - 1;
      TakePrev(pre, b, post);
      MidInside(pre[..n], [pre[n], b], post, root, brk);
    }
  }

  lemma FusePrev(m: map<int, int>, root: int, brk: int, max: int, pre: seq<Block>, b: Block, post: seq<Block>)
    requires Tiled(m, pre + [b] + post, root, brk, max) && !b.used
    ensures var m', p := FuseWords(m, Leader(pre, b), b), Leader(pre, b);
      if !PrevFree(pre) then m' == m else
        && Tiled(m', pre[..|pre| - 1] + [Fused(p, b)] + post, root, brk, max)
        && SameOutside(m, m', p.addr, End(b))
  {
    if PrevFree(pre) {
      var n := |pre| - 1;
      TakePrev(pre, b, post);
      FusedTiled(m, root, brk, max, pre[..n], pre[n], b, post);
    }
  }

  /** The memory that _merge leaves. */
  ghost function MergeWords(m: map<int, int>, pre: seq<Block>, b: Block, post: seq<Block>): map<int, int>
  {
    FuseWords(FuseWords(m, b, Follower(b, post)), Leader(pre, FusedNext(b, post)), FusedNext(b, post))
  }

  lemma MergeTiled(m: map<int, int>, root: int, brk: int, max: int, pre: seq<Block>, b: Block, post: seq<Block>)
    requires Tiled(m, pre + [b] + post, root, brk, max) && !b.used
    ensures Tiled(MergeWords(m, pre, b, post), Merged(pre, b, post), root, brk, max)
    ensures SameOutside(m, MergeWords(m, pre, b, post), MergedAddr(pre, b), End(FusedNext(b, post)))
  {
    var b1, m1 := FusedNext(b, post), FuseWords(m, b, Follower(b, post));
    FuseNext(m, root, brk, max, pre, b, post);
    FusePrev(m1, root, brk, max, pre, b1, RestAfter(post));
    PrevWords(m1, root, brk, max, pre, b1, RestAfter(post));
  }

  /** Whole pages are mapped until brk + siz fits; since brk is 4 modulo 8, the epilogue at
      brk + siz then lies below the limit and not at it. */
  lemma EpilogueFits(lo: int, brk: int, siz: int, max: int, pages: int)
    requires lo % 8 == 4 && (brk - lo) % 8 == 0 && siz % 8 == 0 && max % PAGE_SIZE == 0
    requires brk + siz <= max + pages * PAGE_SIZE
    ensures brk + siz < max + pages * PAGE_SIZE
    ensures (max + pages * PAGE_SIZE) % PAGE_SIZE == 0
  {
    var x, y, z, p := lo / 8, (brk - lo) / 8, siz / 8, max / PAGE_SIZE;
    assert brk + siz == 8 * (x + y + z) + 4;
    assert max + pages * PAGE_SIZE == 8 * (512 * (p + pages));
  }

  /** Rewriting the tags of one block with another used flag. */
  lemma RetagOne(m: map<int, int>, root: int, brk: int, max: int,
                 pre: seq<Block>, b: Block, post: seq<Block>, used: bool)
    requires Tiled(m, pre + [b] + post, root, brk, max)
    ensures Sized(b) && Tagged(m, b)
    ensures var m' := m[b.addr := Tag(b.size, used)][End(b) - 4 := Tag(b.size, used)];
      && Tiled(m', pre + [b.(used := used)] + post, root, brk, max)
      && SameOutside(m, m', b.addr, End(b))
  {
    Around(m, root, brk, max, pre, b, post);
    var m' := m[b.addr := Tag(b.size, used)][End(b) - 4 := Tag(b.size, used)];
    Rewritten(m, m', root, brk, max, pre, [b], [b.(used := used)], post);
  }

  /** The four words written when a block is split into a used and a free part. */
  ghost function SplitWords(m: map<int, int>, b: Block, need: int): map<int, int>
  {
    var rest := Tag(b.size - need, false);
    m[End(b) - 4 := rest][b.addr + need := rest]
     [b.addr := Tag(need, true)][b.addr + need - 4 := Tag(need, true)]
  }

  lemma CarvedTags(m: map<int, int>, b: Block, need: int)
    requires 8 <= need && need + 8 <= b.size && Tagged(m, b)
    ensures var m' := SplitWords(m, b, need);
      AllTagged(m', Carved(b, need)) && SameOutside(m, m', b.addr, End(b))
  {}

  lemma CarvedChain(b: Block, need: int)
    requires Sized(b) && 8 <= need < b.size && need % 8 == 0
    ensures need + 8 <= b.size && Chained(Carved(b, need), b.addr, End(b))
  {
    var x, y := b.size / 8, need / 8;
    assert b.size - need == 8 * (x - y);
  }

  /** Every word a split writes is mapped. */
  lemma SplitRoom(m: map<int, int>, root: int, brk: int, max: int,
                  pre: seq<Block>, b: Block, post: seq<Block>, need: int)
    requires Tiled(m, pre + [b] + post, root, brk, max) && 8 <= need < b.size && need % 8 == 0
    ensures b.addr + need - 4 in m && b.addr + need in m
  {
    MidInside(pre, [b], post, root, brk);
    BlockAligned(pre, b, post, root, brk);
    WordsAt(root, b.addr, need);
  }

  lemma SplitOne(m: map<int, int>, root: int, brk: int, max: int,
                 pre: seq<Block>, b: Block, post: seq<Block>, need: int)
    requires Tiled(m, pre + [b] + post, root, brk, max)
    requires 8 <= need < b.size && need % 8 == 0
    ensures Tiled(SplitWords(m, b, need), pre + Carved(b, need) + post, root, brk, max)
    ensures SameOutside(m, SplitWords(m, b, need), b.addr, End(b))
  {
    Around(m, root, brk, max, pre, b, post);
    CarvedChain(b, need);
    CarvedTags(m, b, need);
    Rewritten(m, SplitWords(m, b, need), root, brk, max, pre, [b], Carved(b, need), post);
  }

  lemma BlockAligned(pre: seq<Block>, b: Block, post: seq<Block>, lo: int, hi: int)
    requires Chained(pre + [b] + post, lo, hi)
    ensures (b.addr - lo) % 8 == 0
  {
    ChainGrows(pre + [b] + post, lo, hi);
    assert (pre + [b] + post)[|pre|] == b;
  }

  /** The three words _extend_heap writes: a free block at brk and a new epilogue. */
  ghost function AppendWords(m: map<int, int>, brk: int, need: int): map<int, int>
  {
    m[brk := Tag(need, false)][brk + need - 4 := Tag(need, false)][brk + need := Tag(0, true)]
  }

  /** m1 is m with more memory mapped. */
  ghost predicate Extends(m: map<int, int>, m1: map<int, int>, max: int)
  {
    forall w | w in m :: w in m1 && (w < max ==> m1[w] == m[w])
  }

  lemma Appended(m: map<int, int>, m1: map<int, int>, bs: seq<Block>, root: int, brk: int,
                 max: int, max': int, need: int)
    requires Tiled(m, bs, root, brk, max)
    requires 8 <= need && need % 8 == 0 && brk + need - root < TAG_LIMIT
    requires max <= max' && max' % PAGE_SIZE == 0 && brk + need < max'
    requires AllMapped(m1, max') && Extends(m, m1, max)
    ensures Tiled(AppendWords(m1, brk, need), bs + [Block(brk, need, false)], root, brk + need, max')
  {
    var b, m' := Block(brk, need, false), AppendWords(m1, brk, need);
    ChainGrows(bs, root, brk);
    AppendedTags(m, m1, bs, root, brk, max, need);
    TaggedConcat(m', bs, [b]);
    ChainJoin(bs, [b], root, brk, brk + need);
  }

  lemma AppendedTags(m: map<int, int>, m1: map<int, int>, bs: seq<Block>, lo: int, brk: int, max: int, need: int)
    requires Chained(bs, lo, brk) && AllTagged(m, bs) && Extends(m, m1, max) && brk < max && 8 <= need
    ensures AllTagged(AppendWords(m1, brk, need), bs)
  {
    ChainGrows(bs, lo, brk);
    forall i | 0 <= i < |bs|
      ensures Tagged(AppendWords(m1, brk, need), bs[i])
    {
      assert bs[i] in bs;
    }
  }

  lemma Align8Same(n: int)
    requires n % 8 == 0
    ensures Align8(n) == n
  {}

  lemma WordsAt(lo: int, a: int, n: int)
    requires lo % 8 == 4 && (a - lo) % 8 == 0 && n % 8 == 0
    ensures Word(a) && Word(a + n - 4) && Word(a + n)
  {
    var x, y, z := lo / 8, (a - lo) / 8, n / 8;
    assert a == 4 * (2 * x + 2 * y + 1);
    assert a + n == 4 * (2 * x + 2 * y + 2 * z + 1);
    assert a + n - 4 == 4 * (2 * x + 2 * y + 2 * z);
  }

  lemma AppendRoom(m: map<int, int>, root: int, brk: int, max: int, need: int)
    requires root == HEAP_BASE + 12 && root <= brk && (brk - root) % 8 == 0 && 8 <= need && need % 8 == 0
    requires brk + need < max && AllMapped(m, max)
    ensures brk in m && brk + need - 4 in m && brk + need in m
  {
    WordsAt(root, brk, need);
  }

  // ---------- first fit ----------

  ghost predicate Fits(b: Block, need: int)
  {
    !b.used && b.size >= need
  }

  /** The first block that is free and large enough; the length when there is none. */
  ghost function FirstFit(bs: seq<Block>, need: int): nat
  {
    if bs == [] || Fits(bs[0], need) then 0 else 1 + FirstFit(bs[1..], need)
  }

  lemma {:induction false} FirstFitIs(bs: seq<Block>, need: int, i: nat)
    requires i <= |bs| && (i < |bs| ==> Fits(bs[i], need))
    requires forall j | 0 <= j < i :: !Fits(bs[j], need)
    ensures FirstFit(bs, need) == i
  {
    if i == 0 {
    } else {
      FirstFitIs(bs[1..], need, i - 1);
    }
  }

  ghost function Carved(b: Block, need: int): seq<Block>
  {
    if b.size > need then [Block(b.addr, need, true), Block(b.addr + need, b.size - need, false)]
    else [b.(used := true)]
  }

  ghost function AllocatedAt(bs: seq<Block>, i: nat, need: int): seq<Block>
    requires i < |bs|
  {
    bs[..i] + Carved(bs[i], need) + bs[i + 1..]
  }

  /** _extend_heap: need more bytes at the end, fused with a free last block. */
  ghost function Grown(bs: seq<Block>, brk: int, need: int): seq<Block>
  {
    Merged(bs, Block(brk, need, false), [])
  }

  ghost function Freed(bs: seq<Block>, i: nat): seq<Block>
    requires i < |bs|
  {
    Merged(bs[..i], bs[i].(used := false), bs[i + 1..])
  }

  lemma AllocatedCoalesced(bs: seq<Block>, i: nat, need: int)
    requires Coalesced(bs) && i < |bs| && !bs[i].used
    ensures Coalesced(AllocatedAt(bs, i, need))
  {
    var r := AllocatedAt(bs, i, need);
    var shift := |r| - |bs|;
    forall x, y | 0 <= x < y < |r| && y == x + 1
      ensures r[x].used || r[y].used
    {
      if y < i {
        assert r[x] == bs[x] && r[y] == bs[y];
      } else if x > i + shift {
        assert r[x] == bs[x - shift] && r[y] == bs[y - shift];
      } else if x == i + shift && shift == 1 {
        assert r[y] == bs[i + 1];
      }
    }
  }

  /** The sequence first fit works on: the blocks as they are if one fits, else grown. */
  ghost function Room(bs: seq<Block>, brk: int, need: int): seq<Block>
  {
    if FirstFit(bs, need) < |bs| then bs else Grown(bs, brk, need)
  }

  /** Growing keeps the address of every block, and the last block now fits; blocks that did
      not fit and are not last are as they were. */
  lemma GrownShape(bs: seq<Block>, brk: int, lo: int, need: int)
    requires Chained(bs, lo, brk) && need >= 8
    ensures var g := Grown(bs, brk, need);
      && |bs| <= |g| <= |bs| + 1 && g != [] && Fits(g[|g| - 1], need)
      && (forall j | 0 <= j < |bs| :: g[j].addr == bs[j].addr)
      && (forall j | 0 <= j < |bs| && j < |g| - 1 :: g[j] == bs[j])
      && (bs == [] ==> g[0].addr == brk)
  {}

  // ---------- live blocks ----------

  lemma Apart(bs: seq<Block>, lo: int, hi: int, i: nat, j: nat)
    requires Chained(bs, lo, hi) && i < j < |bs|
    ensures lo <= bs[i].addr && End(bs[i]) <= bs[j].addr && End(bs[j]) <= hi
    ensures (bs[i].addr - lo) % 8 == 0
  {
    ChainSplit(bs, lo, hi, j);
    ChainGrows(bs[..j], lo, bs[j].addr);
    assert bs[..j][i] in bs[..j];
    ChainGrows(bs, lo, hi);
    assert bs[j] in bs;
  }

  lemma PayloadAligned(a: int)
    requires (a - (HEAP_BASE + 12)) % 8 == 0
    ensures (a + 4) % 8 == 0
  {}

  /** Payloads are 8-aligned, inside the heap and pairwise disjoint. */
  lemma PayloadsDisjoint(m: map<int, int>, bs: seq<Block>, root: int, brk: int, max: int)
    requires Tiled(m, bs, root, brk, max)
    ensures forall i | 0 <= i < |bs| :: (bs[i].addr + 4) % 8 == 0 && root <= bs[i].addr && End(bs[i]) <= brk
    ensures forall i, j | 0 <= i < j < |bs| :: End(bs[i]) - 4 < bs[j].addr + 4
  {
    ChainGrows(bs, root, brk);
    forall i | 0 <= i < |bs|
      ensures (bs[i].addr + 4) % 8 == 0 && root <= bs[i].addr && End(bs[i]) <= brk
    {
      assert bs[i] in bs;
      PayloadAligned(bs[i].addr);
    }
    forall i, j | 0 <= i < j < |bs|
      ensures End(bs[i]) - 4 < bs[j].addr + 4
    {
      Apart(bs, root, brk, i, j);
    }
  }

  /** Every word of block b is as it was. */
  ghost predicate Kept(m: map<int, int>, m': map<int, int>, b: Block)
  {
    forall w | w in m && b.addr <= w < End(b) :: w in m' && m'[w] == m[w]
  }

  /** Every used block of bs is still there, with the same address, size and contents. */
  ghost predicate KeepsLive(bs: seq<Block>, bs': seq<Block>, m: map<int, int>, m': map<int, int>)
  {
    forall b | b in bs && b.used :: b in bs' && Kept(m, m', b)
  }

  lemma KeepsLiveTrans(a: seq<Block>, b: seq<Block>, c: seq<Block>,
                       m: map<int, int>, m1: map<int, int>, m2: map<int, int>)
    requires KeepsLive(a, b, m, m1) && KeepsLive(b, c, m1, m2)
    ensures KeepsLive(a, c, m, m2)
  {}

  lemma TakeKeepsLive(bs: seq<Block>, lo: int, hi: int, i: nat, need: int, m: map<int, int>, m': map<int, int>)
    requires Chained(bs, lo, hi) && i < |bs| && !bs[i].used
    requires SameOutside(m, m', bs[i].addr, End(bs[i]))
    ensures KeepsLive(bs, AllocatedAt(bs, i, need), m, m')
  {
    forall b | b in bs && b.used
      ensures b in AllocatedAt(bs, i, need) && Kept(m, m', b)
    {
      var j :| 0 <= j < |bs| && bs[j] == b;
      if j < i {
        Apart(bs, lo, hi, j, i);
        assert AllocatedAt(bs, i, need)[j] == b;
      } else {
        Apart(bs, lo, hi, i, j);
        assert bs[i + 1..][j - i - 1] == b;
      }
    }
  }

  lemma MergeKeepsLive(pre: seq<Block>, b: Block, post: seq<Block>, lo: int, hi: int,
                       m: map<int, int>, m': map<int, int>)
    requires Chained(pre + [b] + post, lo, hi) && !b.used
    requires SameOutside(m, m', MergedAddr(pre, b), End(FusedNext(b, post)))
    ensures KeepsLive(pre + [b] + post, Merged(pre, b, post), m, m')
  {
    var bs, k := pre + [b] + post, |pre|;
    forall x | x in bs && x.used
      ensures x in Merged(pre, b, post) && Kept(m, m', x)
    {
      var j :| 0 <= j < |bs| && bs[j] == x;
      if j < k {
        Apart(bs, lo, hi, j, k);
        if PrevFree(pre) {
          assert bs[k - 1] == pre[k - 1];
          Apart(bs, lo, hi, j, k - 1);
          assert pre[..k - 1][j] == x;
        }
        assert x in Merged(pre, b, post);
      } else {
        assert x == post[j - k - 1];
        Apart(bs, lo, hi, k, j);
        if NextFree(post) {
          assert bs[k + 1] == post[0];
          Apart(bs, lo, hi, k + 1, j);
          assert post[1..][j - k - 2] == x;
        }
        assert x in RestAfter(post);
      }
    }
  }

  lemma AppendKeepsLive(m: map<int, int>, m1: map<int, int>, bs: seq<Block>, root: int, brk: int, max: int, need: int)
    requires Chained(bs, root, brk) && brk < max && Extends(m, m1, max) && 8 <= need
    ensures KeepsLive(bs, bs + [Block(brk, need, false)], m, AppendWords(m1, brk, need))
  {
    ChainGrows(bs, root, brk);
  }

  lemma RetagKeepsLive(pre: seq<Block>, b: Block, post: seq<Block>, lo: int, hi: int,
                       m: map<int, int>, m': map<int, int>)
    requires Chained(pre + [b] + post, lo, hi) && SameOutside(m, m', b.addr, End(b))
    ensures KeepsLive(pre + post, pre + [b.(used := false)] + post, m, m')
  {
    var bs, k := pre + [b] + post, |pre|;
    forall x | x in pre + post && x.used
      ensures x in pre + [b.(used := false)] + post && Kept(m, m', x)
    {
      if x in pre {
        var j :| 0 <= j < |pre| && pre[j] == x;
        assert bs[j] == x;
        Apart(bs, lo, hi, j, k);
      } else {
        var j :| 0 <= j < |post| && post[j] == x;
        assert bs[k + 1 + j] == x;
        Apart(bs, lo, hi, k, k + 1 + j);
      }
    }
  }

  /** A block taken from a free one overlaps no block that was in use. */
  lemma TakenIsFresh(bs: seq<Block>, lo: int, hi: int, i: nat, need: int, b: Block)
    requires Chained(bs, lo, hi) && i < |bs| && Fits(bs[i], need) && b in bs && b.used
    ensures var t := Carved(bs[i], need)[0];
      t.used && t.addr == bs[i].addr && t.size >= need && (End(b) <= t.addr || End(t) <= b.addr)
  {
    var j :| 0 <= j < |bs| && bs[j] == b;
    if j < i {
      Apart(bs, lo, hi, j, i);
    } else {
      Apart(bs, lo, hi, i, j);
    }
  }

  /** So the block malloc returns overlaps none of the blocks in use. */
  lemma TakenAside(bs: seq<Block>, lo: int, hi: int, i: nat, need: int)
    requires Chained(bs, lo, hi) && i < |bs| && Fits(bs[i], need)
    ensures forall b | b in bs && b.used :: Aside(b, AllocatedAt(bs, i, need)[i])
  {
    forall b | b in bs && b.used
      ensures Aside(b, AllocatedAt(bs, i, need)[i])
    {
      TakenIsFresh(bs, lo, hi, i, need, b);
    }
  }

  ghost predicate Aside(a: Block, b: Block)
  {
    End(a) <= b.addr || End(b) <= a.addr
  }

  // ---------- which blocks are in use ----------

  ghost function InUse(bs: seq<Block>): set<Block>
  {
    set b | b in bs && b.used
  }

  lemma InUseSplit(a: seq<Block>, b: seq<Block>)
    ensures InUse(a + b) == InUse(a) + InUse(b)
  {
    forall x | x in InUse(a) + InUse(b)
      ensures x in a + b
    {}
  }

  /** Merging leaves the same blocks in use. */
  lemma MergedInUse(pre: seq<Block>, b: Block, post: seq<Block>)
    requires !b.used
    ensures InUse(Merged(pre, b, post)) == InUse(pre) + InUse(post)
  {
    var b1 := FusedNext(b, post);
    var rest := RestAfter(post);
    if rest != post {
      InUseSplit([post[0]], rest);
      assert post == [post[0]] + rest;
    }
    if PrevFree(pre) {
      var p := pre[|pre| - 1];
      var pre' := pre[..|pre| - 1];
      assert pre == pre' + [p];
      InUseSplit(pre', [p]);
      InUseSplit(pre', [Fused(p, b1)]);
      InUseSplit(pre' + [Fused(p, b1)], rest);
    } else {
      InUseSplit(pre, [b1]);
      InUseSplit(pre + [b1], rest);
    }
  }

  /** Freeing takes one block out of use, ... */
  lemma FreedInUse(bs: seq<Block>, i: nat)
    requires i < |bs|
    ensures InUse(Freed(bs, i)) == InUse(bs[..i]) + InUse(bs[i + 1..])
  {
    MergedInUse(bs[..i], bs[i].(used := false), bs[i + 1..]);
  }

  /** ... allocating puts one into use, and growing leaves them as they are. */
  lemma AllocatedInUse(bs: seq<Block>, i: nat, need: int)
    requires i < |bs| && Fits(bs[i], need)
    ensures InUse(AllocatedAt(bs, i, need)) == InUse(bs) + {AllocatedAt(bs, i, need)[i]}
  {
    var c := Carved(bs[i], need);
    assert bs == bs[..i] + [bs[i]] + bs[i + 1..];
    InUseSplit(bs[..i], [bs[i]]);
    InUseSplit(bs[..i] + [bs[i]], bs[i + 1..]);
    InUseSplit(bs[..i], c);
    InUseSplit(bs[..i] + c, bs[i + 1..]);
    assert c == [c[0]] + c[1..];
    InUseSplit([c[0]], c[1..]);
    assert AllocatedAt(bs, i, need)[i] == c[0];
  }

  lemma RoomInUse(bs: seq<Block>, brk: int, need: int)
    ensures InUse(Room(bs, brk, need)) == InUse(bs)
  {
    MergedInUse(bs, Block(brk, need, false), []);
  }

  /** As soon as there are two blocks one of them is in use: when everything has been freed
      the heap is a single free block, or empty. */
  lemma FullyCoalesced(bs: seq<Block>)
    requires Coalesced(bs) && |bs| >= 2
    ensures exists i | 0 <= i < |bs| :: bs[i].used
  {
    assert bs[0].used || bs[1].used;
  }

  lemma NeedCoversRequest(siz: nat)
    ensures Align8(siz + 8) % 8 == 0 && siz + 8 <= Align8(siz + 8) < siz + 16
  {}

  lemma AllocatedBlock(bs: seq<Block>, i: nat, need: int)
    requires i < |bs| && Fits(bs[i], need)
    ensures var r := AllocatedAt(bs, i, need);
      i < |r| && r[i].addr == bs[i].addr && r[i].used && r[i].size >= need
  {}
}
