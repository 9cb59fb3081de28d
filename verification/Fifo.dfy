/** src/kernel/klib/fifo.c: a byte queue in a fixed buffer, whose head and tail are 64-bit
counters that only ever grow and wrap. An empty queue has tail == head + siz. */
module Fifo {
  import opened Order

  const W: int := 0x1_0000_0000_0000_0000

  /** size_t subtraction */
  function Sub(x: int, y: int): int
  {
    (x - y) % W
  }

  /** The buffer slot of counter value c + i: the counter wraps first. */
  function Slot(siz: int, c: int, i: int): int
    requires siz > 0
  {
    (c + i) % W % siz
  }

  // ---------- which capacities work ----------

  /** No two of siz consecutive counter values share a slot, wherever they begin. */
  ghost predicate Injective(siz: int)
    requires siz > 0
  {
    forall c, i, j | 0 <= c < W && 0 <= i < j < siz :: Slot(siz, c, i) != Slot(siz, c, j)
  }

  lemma MulBound(siz: int, k: int)
    requires siz > 0
    ensures k >= 1 ==> siz * k >= siz
    ensures k <= -1 ==> siz * k <= -siz
  {}

  lemma ModUnique(n: int, siz: int, q: int, r: int)
    requires siz > 0 && n == siz * q + r && 0 <= r < siz
    ensures n % siz == r
  {
    var d, m := n / siz, n % siz;
    assert n == siz * d + m && 0 <= m < siz;
    MulBound(siz, d - q);
    assert siz * (d - q) == siz * d - siz * q;
  }

  /** Adding a multiple of siz does not change the slot. */
  lemma ModAdd(n: int, siz: int, k: int)
    requires siz > 0
    ensures (n + siz * k) % siz == n % siz
  {
    var d := n / siz;
    assert n + siz * k == siz * (d + k) + n % siz;
    ModUnique(n + siz * k, siz, d + k, n % siz);
  }

  /** If the capacity divides 2^64, wrapping the counter does not change its slot. */
  lemma Unwrapped(siz: int, n: int)
    requires siz > 0 && W % siz == 0
    ensures n % W % siz == n % siz
  {
    var q := W / siz;
    assert W == siz * q;
    var d := n / W;
    assert n == W * d + n % W;
    assert W * d == siz * (q * d);
    ModAdd(n % W, siz, q * d);
  }

  lemma NearSlots(siz: int, n: int, d: int)
    requires siz > 0 && 0 < d < siz
    ensures n % siz != (n + d) % siz
  {
    var q, r := n / siz, n % siz;
    if r + d < siz {
      ModUnique(n + d, siz, q, r + d);
    } else {
      assert n + d == siz * (q + 1) + (r + d - siz);
      ModUnique(n + d, siz, q + 1, r + d - siz);
    }
  }

  /** With a remainder r, the values 2^64 - r and 2^64, which wraps to 0, share slot 0. */
  lemma Collision(siz: int, q: int, r: int)
    requires siz > 0 && W == siz * q + r && 0 < r < siz
    ensures !Injective(siz)
  {
    var c := W - r;
    MulBound(siz, q);
    ModUnique(c, siz, q, 0);
    ModUnique(0, siz, 0, 0);
    assert (c + 0) % W == c && (c + r) % W == 0;
    assert Slot(siz, c, 0) == Slot(siz, c, r);
  }

  /** The counters can be used as slots exactly when the capacity divides 2^64. */
  lemma WhichCapacities(siz: int)
    requires 0 < siz < W
    ensures Injective(siz) <==> W % siz == 0
  {
    if W % siz == 0 {
      forall c, i, j | 0 <= c < W && 0 <= i < j < siz
        ensures Slot(siz, c, i) != Slot(siz, c, j)
      {
        Unwrapped(siz, c + i);
        Unwrapped(siz, c + j);
        NearSlots(siz, c + i, j - i);
      }
    } else {
      Collision(siz, W / siz, W % siz);
    }
  }

  /** A capacity of three: once the head counter reaches 2^64 - 1, two queued bytes share a slot. */
  lemma ThreeFails()
    ensures Slot(3, W - 1, 0) == Slot(3, W - 1, 1)
  {}

  // ---------- the queue ----------

  /** tail - siz - head in size_t gives back the number of bytes. */
  lemma UsedIs(siz: int, head: int, n: int)
    requires 0 < siz < W && 0 <= head < W && 0 <= n <= siz
    ensures Sub(Sub((head + siz + n) % W, siz), head) == n
  {
    var t, d := (head + siz + n) % W, (head + siz + n) / W;
    assert t == head + siz + n - W * d;
    var e := (t - siz) / W;
    assert Sub(t, siz) == t - siz - W * e;
    ModUnique(Sub(t, siz) - head, W, -d - e, n);
  }

  /** The slot of the tail is the one behind the last of n bytes. */
  lemma TailSlot(siz: int, head: int, n: int)
    requires 0 < siz < W && W % siz == 0
    ensures (head + siz + n) % W % siz == Slot(siz, head, n)
  {
    Unwrapped(siz, head + n);
    Unwrapped(siz, head + siz + n);
    ModAdd(head + n, siz, 1);
  }

  /** Advancing the head by one. */
  lemma NextSlot(siz: int, head: int, i: int)
    requires siz > 0
    ensures Slot(siz, (head + 1) % W, i) == Slot(siz, head, i + 1)
  {
    WrapAdd(head + 1, i);
  }

  lemma WrapAdd(x: int, y: int)
    ensures (x % W + y) % W == (x + y) % W
  {
    var d, e := x / W, (x + y) / W;
    assert x % W + y == W * (e - d) + (x + y) % W;
    ModUnique(x % W + y, W, e - d, (x + y) % W);
  }

  class Fifo {
    const buf: array<bv8>
    const siz: nat
    var head: int
    var tail: int
    ghost var contents: seq<bv8>

    ghost predicate Valid()
      reads this, buf
    {
      && 0 < siz < W && buf.Length == siz && W % siz == 0
      && 0 <= head < W && |contents| <= siz && tail == (head + siz + |contents|) % W
      && forall i | 0 <= i < |contents| :: InSlot(i)
    }

    ghost predicate InSlot(i: int)
      requires siz > 0 && buf.Length == siz && 0 <= i < |contents|
      reads this, buf
    {
      contents[i] == buf[Slot(siz, head, i)]
    }

    /** fifo_init */
    constructor (siz: nat)
      requires 0 < siz < W && W % siz == 0
      ensures Valid() && this.siz == siz && contents == [] && fresh(buf)
    {
      buf := new bv8[siz];
      this.siz := siz;
      head := 0;
      tail := siz;
      contents := [];
    }

    /** fifo_empty */
    method Empty() returns (r: bool)
      requires Valid()
      ensures r <==> contents == []
    {
      r := (head + siz) % W == tail;
      UsedIs(siz, head, |contents|);
      UsedIs(siz, head, 0);
    }

    /** fifo_clear */
    method Clear()
      requires Valid()
      modifies this`head, this`tail, this`contents
      ensures Valid() && contents == []
    {
      head := 0;
      tail := siz;
      contents := [];
    }

    /** One round of fifo_write. */
    method Put(x: bv8)
      requires Valid() && |contents| < siz
      modifies this`tail, this`contents, buf
      ensures Valid() && contents == old(contents) + [x]
    {
      TailSlot(siz, head, |contents|);
      WhichCapacities(siz);
      buf[tail % siz] := x;
      WrapAdd(head + siz + |contents|, 1);
      tail := (tail + 1) % W;
      contents := contents + [x];
      forall i | 0 <= i < |contents|
        ensures InSlot(i)
      {
        if i < |contents| - 1 {
          assert old(InSlot(i));
        }
      }
    }

    /** One round of fifo_read. */
    method Get() returns (x: bv8)
      requires Valid() && 0 < |contents|
      modifies this`head, this`contents
      ensures Valid() && old(contents) == [x] + contents
    {
      x := buf[head % siz];
      assert x == contents[0] by {
        assert InSlot(0) && head % W == head;
      }
      WrapAdd(head + 1, siz + |contents| - 1);
      head := (head + 1) % W;
      contents := contents[1..];
      forall i | 0 <= i < |contents|
        ensures InSlot(i)
      {
        NextSlot(siz, old(head), i);
        assert old(InSlot(i + 1));
      }
    }

    /** tail - siz - head in size_t */
    method Used() returns (n: nat)
      requires Valid()
      ensures n == |contents|
    {
      UsedIs(siz, head, |contents|);
      n := Sub(Sub(tail, siz), head);
    }

    /** siz - (tail - siz - head) in size_t */
    method Room() returns (n: nat)
      requires Valid()
      ensures n == siz - |contents|
    {
      var used := Used();
      n := Sub(siz, used);
    }

    /** fifo_write: as much as there is room for. */
    method Write(data: seq<bv8>) returns (ret: nat)
      requires Valid()
      modifies this`tail, this`contents, buf
      ensures Valid() && ret == Min(|data|, siz - |old(contents)|)
      ensures contents == old(contents) + data[..ret]
    {
      ret := 0;
      var rem := Room();
      rem := Min(|data|, rem);
      while rem != 0
        invariant Valid() && 0 <= rem && ret + rem == Min(|data|, siz - |old(contents)|)
        invariant contents == old(contents) + data[..ret]
      {
        Put(data[ret]);
        rem, ret := rem - 1, ret + 1;
        assert data[..ret] == data[..ret - 1] + [data[ret - 1]];
      }
    }

    /** fifo_read: as much as there is. */
    method Read(size: nat) returns (data: seq<bv8>)
      requires Valid()
      modifies this`head, this`contents
      ensures Valid() && |data| == Min(size, |old(contents)|)
      ensures old(contents) == data + contents
    {
      data := [];
      var rem := Used();
      rem := Min(size, rem);
      while rem != 0
        invariant Valid() && 0 <= rem && |data| + rem == Min(size, |old(contents)|)
        invariant old(contents) == data + contents
      {
        var x := Get();
        data := data + [x];
        rem := rem - 1;
      }
    }
  }
}
