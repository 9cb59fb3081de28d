/** src/kernel/dev/disk/buffer.c: buffers, the memory they own and the device blocks they stand
for. */
module BufferBlocks {
  const PAGE_SIZ := 4096
  const BUCKETS := 32
  const NOBODY := -1

  /** A buffer_t; depth counts how often its holder has locked it. */
  datatype Buf = Buf(dev: int, idx: int, siz: int, blk: int, dirty: bool, holder: int, depth: nat)

  type Memory = int -> bv8
  type Disk = (int, int) -> bv8  // device and byte offset

  /** hash(dev, idx) % 32, for the major number of the device. */
  function Bucket(major: int, idx: int): (k: int)
    requires 0 <= major < 0x1_0000_0000 && 0 <= idx < 0x1_0000_0000
    ensures 0 <= k < BUCKETS
  {
    (((major as bv32) ^ (idx as bv32)) % 32) as int
  }

  predicate IsBlock(b: Buf, dev: int, idx: int)
  {
    b.dev == dev && b.idx == idx
  }

  // ---------- memory and device ----------

  ghost predicate Apart(a: Buf, b: Buf)
  {
    a.blk + a.siz <= b.blk || b.blk + b.siz <= a.blk
  }

  ghost predicate AllApart(bufs: seq<Buf>)
  {
    forall i, j | 0 <= i < j < |bufs| :: Apart(bufs[i], bufs[j])
  }

  /** Byte i of the buffer is byte i of its block on the device. */
  ghost predicate SameByte(b: Buf, mem: Memory, disk: Disk, i: int)
  {
    mem(b.blk + i) == disk(b.dev, b.idx * b.siz + i)
  }

  ghost predicate Coherent(b: Buf, mem: Memory, disk: Disk)
  {
    forall i | 0 <= i < b.siz :: SameByte(b, mem, disk, i)
  }

  lemma MulOrder(i: int, j: int, n: int)
    requires i < j && n >= 0
    ensures i * n + n <= j * n
  {
    assert j * n == i * n + n + (j - i - 1) * n;
    assert (j - i - 1) * n >= 0;
  }

  /** Block i of size m and block j of size n share no byte of the device. */
  ghost predicate BlocksDisjoint(i: int, m: int, j: int, n: int)
  {
    i * m + m <= j * n || j * n + n <= i * m
  }

  /** Differently numbered blocks are always disjoint exactly when there is one block size. */
  lemma OneSize(m: int, n: int)
    requires m > 0 && n > 0
    ensures (forall i: nat, j: nat | i != j :: BlocksDisjoint(i, m, j, n)) <==> m == n
  {
    if m == n {
      forall i: nat, j: nat | i != j
        ensures BlocksDisjoint(i, m, j, n)
      {
        if i < j {
          MulOrder(i, j, n);
        } else {
          MulOrder(j, i, n);
        }
      }
    } else {
      assert m < n ==> !BlocksDisjoint(1, m, 0, n);
      assert n < m ==> !BlocksDisjoint(0, m, 1, n);
    }
  }

  /** Sector addresses times sector size are block addresses times block size. */
  lemma SectorOffset(idx: int, siz: int, sector: int)
    requires sector > 0 && siz > 0 && siz % sector == 0
    ensures idx * (siz / sector) * sector == idx * siz
    ensures siz / sector * sector == siz
  {
    var k := siz / sector;
    assert k * sector == siz;
    assert idx * k * sector == idx * (k * sector);
  }

  /** The memory after a device read of n bytes from offset off to address a. */
  function Loaded(mem: Memory, disk: Disk, dev: int, off: int, a: int, n: int): Memory
  {
    x => if a <= x < a + n then disk(dev, off + x - a) else mem(x)
  }

  /** The device after a write of n bytes from address a to offset off. */
  function Stored(disk: Disk, mem: Memory, dev: int, off: int, a: int, n: int): Disk
  {
    (d, o) => if d == dev && off <= o < off + n then mem(a + o - off) else disk(d, o)
  }

  /** Loading one buffer from its block makes it coherent and leaves the others as they are. */
  lemma LoadKeeps(b: Buf, c: Buf, mem: Memory, disk: Disk)
    requires Apart(b, c) && Coherent(c, mem, disk)
    ensures Coherent(c, Loaded(mem, disk, b.dev, b.idx * b.siz, b.blk, b.siz), disk)
  {
    forall i | 0 <= i < c.siz
      ensures SameByte(c, Loaded(mem, disk, b.dev, b.idx * b.siz, b.blk, b.siz), disk, i)
    {
      assert SameByte(c, mem, disk, i);
    }
  }

  lemma LoadCoherent(b: Buf, mem: Memory, disk: Disk)
    ensures Coherent(b, Loaded(mem, disk, b.dev, b.idx * b.siz, b.blk, b.siz), disk)
  {
    var m := Loaded(mem, disk, b.dev, b.idx * b.siz, b.blk, b.siz);
    forall i | 0 <= i < b.siz
      ensures SameByte(b, m, disk, i)
    {
      assert m(b.blk + i) == disk(b.dev, b.idx * b.siz + (b.blk + i) - b.blk);
    }
  }

  /** Byte o of device d belongs to the block of b. */
  ghost predicate OnBlock(b: Buf, d: int, o: int)
  {
    d == b.dev && b.idx * b.siz <= o < b.idx * b.siz + b.siz
  }

  /** What the buffer holds for byte o of its device. */
  ghost function Held(b: Buf, mem: Memory, o: int): bv8
  {
    mem(b.blk + (o - b.idx * b.siz))
  }

  /** On every device byte that is in both blocks, the two buffers hold the same. */
  ghost predicate Agree(b: Buf, c: Buf, mem: Memory)
  {
    forall o | OnBlock(b, c.dev, o) && OnBlock(c, c.dev, o) :: Held(b, mem, o) == Held(c, mem, o)
  }

  /** The device after b is written back. */
  function WriteBack(b: Buf, mem: Memory, disk: Disk): Disk
  {
    Stored(disk, mem, b.dev, b.idx * b.siz, b.blk, b.siz)
  }

  /** Writing b back keeps a coherent buffer coherent exactly when the two agree where their
      blocks meet. */
  lemma StoreIff(b: Buf, c: Buf, mem: Memory, disk: Disk)
    requires Coherent(c, mem, disk)
    ensures Coherent(c, mem, WriteBack(b, mem, disk)) <==> Agree(b, c, mem)
  {
    var d := WriteBack(b, mem, disk);
    if Coherent(c, mem, d) {
      forall o | OnBlock(b, c.dev, o) && OnBlock(c, c.dev, o)
        ensures Held(b, mem, o) == Held(c, mem, o)
      {
        var i := o - c.idx * c.siz;
        assert SameByte(c, mem, d, i);
        assert b.blk + o - b.idx * b.siz == b.blk + (o - b.idx * b.siz);
      }
    }
    if Agree(b, c, mem) {
      forall i | 0 <= i < c.siz
        ensures SameByte(c, mem, d, i)
      {
        assert SameByte(c, mem, disk, i);
        var o := c.idx * c.siz + i;
        assert OnBlock(c, c.dev, o) && Held(c, mem, o) == mem(c.blk + i);
        if OnBlock(b, c.dev, o) {
          assert Held(b, mem, o) == Held(c, mem, o);
          assert b.blk + o - b.idx * b.siz == b.blk + (o - b.idx * b.siz);
        }
      }
    }
  }

  /** Blocks that do not meet have nothing to disagree about. */
  lemma DisjointAgree(b: Buf, c: Buf, mem: Memory)
    requires b.dev != c.dev || BlocksDisjoint(b.idx, b.siz, c.idx, c.siz)
    ensures Agree(b, c, mem)
  {}

  /** Different blocks of one size never meet. */
  lemma OneSizeAgree(b: Buf, c: Buf, mem: Memory)
    requires b.dev == c.dev ==> b.siz == c.siz && b.idx != c.idx
    ensures Agree(b, c, mem)
  {
    if b.dev == c.dev {
      if b.siz > 0 {
        if b.idx < c.idx {
          MulOrder(b.idx, c.idx, b.siz);
        } else {
          MulOrder(c.idx, b.idx, b.siz);
        }
        DisjointAgree(b, c, mem);
      }
    }
  }

  /** For two buffers of one device: every write-back of b leaves c coherent, whatever they hold,
      exactly when their blocks are disjoint. */
  lemma StoreExact(b: Buf, c: Buf)
    requires b.dev == c.dev && b.siz > 0 && c.siz > 0 && Apart(b, c)
    ensures (forall mem: Memory, disk: Disk | Coherent(c, mem, disk) :: Coherent(c, mem, WriteBack(b, mem, disk)))
       <==> BlocksDisjoint(b.idx, b.siz, c.idx, c.siz)
  {
    if BlocksDisjoint(b.idx, b.siz, c.idx, c.siz) {
      forall mem: Memory, disk: Disk | Coherent(c, mem, disk)
        ensures Coherent(c, mem, WriteBack(b, mem, disk))
      {
        DisjointAgree(b, c, mem);
        StoreIff(b, c, mem, disk);
      }
    } else {
      var o := if b.idx * b.siz < c.idx * c.siz then c.idx * c.siz else b.idx * b.siz;
      var mem, disk := Overlap(b, c, o);
    }
  }

  /** Buffers whose blocks share a byte, and contents for which writing b back makes c stale. */
  lemma Overlap(b: Buf, c: Buf, o: int) returns (mem: Memory, disk: Disk)
    requires b.dev == c.dev && Apart(b, c) && OnBlock(b, b.dev, o) && OnBlock(c, c.dev, o)
    ensures Coherent(c, mem, disk) && !Coherent(c, mem, WriteBack(b, mem, disk))
  {
    var a := b.blk + (o - b.idx * b.siz);
    mem := x => if x == a then 1 else 0;
    disk := (d, p) => 0;
    forall i | 0 <= i < c.siz
      ensures SameByte(c, mem, disk, i)
    {
      assert c.blk + i != a;
    }
    StoreIff(b, c, mem, disk);
    assert Held(b, mem, o) == 1 && Held(c, mem, o) == 0;
  }

  /** Block 1 in blocks of 512 bytes lies inside block 0 in blocks of 1024 bytes. */
  lemma MixedSizes() returns (b: Buf, c: Buf, mem: Memory, disk: Disk)
    ensures b == Buf(7, 1, 512, 0, true, NOBODY, 0) && c == Buf(7, 0, 1024, 4096, false, NOBODY, 0)
    ensures Coherent(c, mem, disk) && !Coherent(c, mem, WriteBack(b, mem, disk))
  {
    b, c := Buf(7, 1, 512, 0, true, NOBODY, 0), Buf(7, 0, 1024, 4096, false, NOBODY, 0);
    mem, disk := Overlap(b, c, 512);
  }

  lemma StoreCoherent(b: Buf, mem: Memory, disk: Disk)
    ensures Coherent(b, mem, WriteBack(b, mem, disk))
  {
    var d := WriteBack(b, mem, disk);
    forall i | 0 <= i < b.siz
      ensures SameByte(b, mem, d, i)
    {
      assert d(b.dev, b.idx * b.siz + i) == mem(b.blk + (b.idx * b.siz + i) - b.idx * b.siz);
    }
  }

  lemma CoherentByte(b: Buf, mem: Memory, disk: Disk, i: int)
    requires Coherent(b, mem, disk) && 0 <= i < b.siz
    ensures mem(b.blk + i) == disk(b.dev, b.idx * b.siz + i)
  {
    assert SameByte(b, mem, disk, i);
  }

  /** The device with one byte changed. */
  function OneByte(disk: Disk, dev: int, off: int, x: bv8): Disk
  {
    (d, o) => if d == dev && o == off then x else disk(d, o)
  }

  /** Releasing a coherent buffer changes nothing on the device. */
  lemma CoherentRelease(b: Buf, mem: Memory, disk: Disk)
    requires Coherent(b, mem, disk)
    ensures forall d, o :: Released(b, mem, disk)(d, o) == disk(d, o)
  {
    forall d, o
      ensures WriteBack(b, mem, disk)(d, o) == disk(d, o)
    {
      if OnBlock(b, d, o) {
        var j := o - b.idx * b.siz;
        assert SameByte(b, mem, disk, j);
        assert b.blk + o - b.idx * b.siz == b.blk + j;
      }
    }
  }

  /** Writing back a buffer that differs from its block in byte i changes that byte of the device. */
  lemma WriteBackByte(b: Buf, mem0: Memory, mem: Memory, disk: Disk, i: int, x: bv8)
    requires Coherent(b, mem0, disk) && 0 <= i < b.siz && mem(b.blk + i) == x
    requires forall a | a != b.blk + i :: mem(a) == mem0(a)
    ensures forall d, o :: WriteBack(b, mem, disk)(d, o) == OneByte(disk, b.dev, b.idx * b.siz + i, x)(d, o)
  {
    forall d, o
      ensures WriteBack(b, mem, disk)(d, o) == OneByte(disk, b.dev, b.idx * b.siz + i, x)(d, o)
    {
      if OnBlock(b, d, o) {
        var j := o - b.idx * b.siz;
        assert SameByte(b, mem0, disk, j);
        assert b.blk + o - b.idx * b.siz == b.blk + j;
      }
    }
  }

  /** The device after the write that is part of a release. */
  function Released(b: Buf, mem: Memory, disk: Disk): Disk
  {
    if b.dirty then WriteBack(b, mem, disk) else disk
  }

  /** A release leaves the buffer equal to its block exactly when it was marked dirty or had
      not been changed. */
  lemma ReleaseExact(b: Buf, mem: Memory, disk: Disk)
    ensures Coherent(b, mem, Released(b, mem, disk)) <==> b.dirty || Coherent(b, mem, disk)
  {
    StoreCoherent(b, mem, disk);
  }

  /** A changed buffer that was not marked: the release leaves it stale. */
  lemma UnmarkedRelease() returns (b: Buf, mem: Memory, disk: Disk)
    ensures !b.dirty && b.siz == 512 && !Coherent(b, mem, Released(b, mem, disk))
  {
    b := Buf(7, 0, 512, 0, false, NOBODY, 0);
    mem, disk := x => if x == 0 then 1 else 0, (d, p) => 0;
    assert !SameByte(b, mem, disk, 0);
  }
}
