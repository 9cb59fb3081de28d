/** src/app/sha256sum.c: SHA-256 computed from pieces of the message as they come. */
module Sha256 {
  import opened Sha256Spec

  /** sha256_transform, on the eight state words. */
  method Transform(ks: seq<bv32>, state: Hash, data: seq<Byte>) returns (r: Hash)
    requires |ks| == 64 && |data| == 64
    ensures r == Compress(ks, state, data)
  {
    var m := Expand(data);
    var a, b, c, d, e, f, g, h := state.a, state.b, state.c, state.d, state.e, state.f, state.g, state.h;
    var i := 0;
    while i < 64
      invariant 0 <= i <= 64 && Hash(a, b, c, d, e, f, g, h) == Rounds(ks, state, data, i)
    {
      var t1 := T1(e, f, g, h, ks[i], m[i]);
      var t2 := T2(a, b, c);
      h := g;
      g := f;
      f := e;
      e := Plus(d, t1);
      d := c;
      c := b;
      b := a;
      a := Plus(t1, t2);
      i := i + 1;
    }
    r := AddHash(state, Hash(a, b, c, d, e, f, g, h));
  }

  /** The two loops that fill m. */
  method Expand(data: seq<Byte>) returns (m: seq<bv32>)
    requires |data| == 64
    ensures |m| == 64 && forall t | 0 <= t < 64 :: m[t] == Schedule(data, t)
  {
    m := [];
    var i := 0;
    while i < 16
      invariant 0 <= i <= 16 && |m| == i && forall t | 0 <= t < i :: m[t] == Schedule(data, t)
    {
      m := m + [WordAt(data, i)];
      i := i + 1;
    }
    while i < 64
      invariant 16 <= i <= 64 && |m| == i && forall t | 0 <= t < i :: m[t] == Schedule(data, t)
    {
      m := m + [Mix(m[i - 2], m[i - 7], m[i - 15], m[i - 16])];
      i := i + 1;
    }
  }

  const LIMIT: nat := 0x2000_0000_0000_0000             // 2^61 bytes are 2^64 bits
  const WRAP: nat := 0x1_0000_0000_0000_0000

  // ---------- how the pieces of the padded message fall into blocks ----------

  /** A block completed by one more byte. */
  lemma HashNext(ks: seq<bv32>, whole: seq<Byte>, block: seq<Byte>)
    requires |ks| == 64 && |whole| % 64 == 0 && |block| == 64
    ensures HashBlocks(ks, H0, whole + block) == Compress(ks, HashBlocks(ks, H0, whole), block)
  {
    HashSplit(ks, H0, whole, block);
    HashOne(ks, HashBlocks(ks, H0, whole), block);
  }

  lemma HashNextTwo(ks: seq<bv32>, whole: seq<Byte>, b1: seq<Byte>, b2: seq<Byte>)
    requires |ks| == 64 && |whole| % 64 == 0 && |b1| == |b2| == 64
    ensures HashBlocks(ks, H0, whole + b1 + b2) == Compress(ks, Compress(ks, HashBlocks(ks, H0, whole), b1), b2)
  {
    HashNext(ks, whole, b1);
    Leftover(|whole| + 64, 0);
    HashNext(ks, whole + b1, b2);
  }

  lemma PadOne(whole: seq<Byte>, tail: seq<Byte>, len: seq<Byte>)
    requires |whole| % 64 == 0 && |tail| < 56
    ensures PadWith(whole + tail, len) == whole + (tail + [0x80] + Zeros(55 - |tail|) + len)
  {
    Leftover(|whole|, |tail|);
    GapIs(|whole + tail|, |tail|);
  }

  lemma PadTwo(whole: seq<Byte>, tail: seq<Byte>, len: seq<Byte>)
    requires |whole| % 64 == 0 && 56 <= |tail| < 64
    ensures PadWith(whole + tail, len) == whole + (tail + [0x80] + Zeros(63 - |tail|)) + (Zeros(56) + len)
  {
    Leftover(|whole|, |tail|);
    GapIs(|whole + tail|, |tail|);
    assert Zeros(119 - |tail|) == Zeros(63 - |tail|) + Zeros(56);
  }

  lemma FullBlock(ks: seq<bv32>, msg: seq<Byte>)
    requires |ks| == 64 && Split(msg, 64)
    ensures Split(msg, 0) && msg[..|msg| - 0] == msg
    ensures HashBlocks(ks, H0, msg) == Compress(ks, HashBlocks(ks, H0, msg[..|msg| - 64]), msg[|msg| - 64..])
  {
    var n := |msg| - 64;
    assert msg == msg[..n] + msg[n..];
    HashNext(ks, msg[..n], msg[n..]);
    Leftover(n + 64, 0);
  }

  /** With fewer than 56 bytes left over, the padding ends in the same block. */
  lemma LastBlock(ks: seq<bv32>, msg: seq<Byte>, r: nat, len: seq<Byte>, block: seq<Byte>)
    requires |ks| == 64 && Split(msg, r) && r < 56 && |len| == 8
    requires block == msg[|msg| - r..] + [0x80] + Zeros(55 - r) + len
    ensures |block| == 64
    ensures HashBlocks(ks, H0, PadWith(msg, len)) == Compress(ks, HashBlocks(ks, H0, msg[..|msg| - r]), block)
  {
    var whole, tail := msg[..|msg| - r], msg[|msg| - r..];
    assert msg == whole + tail;
    PadOne(whole, tail, len);
    HashNext(ks, whole, block);
  }

  /** Otherwise it takes another block. */
  lemma LastTwoBlocks(ks: seq<bv32>, msg: seq<Byte>, r: nat, len: seq<Byte>, b1: seq<Byte>, b2: seq<Byte>)
    requires |ks| == 64 && Split(msg, r) && 56 <= r < 64 && |len| == 8
    requires b1 == msg[|msg| - r..] + [0x80] + Zeros(63 - r) && b2 == Zeros(56) + len
    ensures |b1| == |b2| == 64
    ensures HashBlocks(ks, H0, PadWith(msg, len))
         == Compress(ks, Compress(ks, HashBlocks(ks, H0, msg[..|msg| - r]), b1), b2)
  {
    var whole, tail := msg[..|msg| - r], msg[|msg| - r..];
    assert msg == whole + tail;
    PadTwo(whole, tail, len);
    assert PadWith(msg, len) == whole + b1 + b2;
    HashNextTwo(ks, whole, b1, b2);
  }

  lemma Leftover(n: nat, r: nat)
    requires n % 64 == 0 && r < 64
    ensures (n + r) % 64 == r
  {}

  class Context {
    const ks: seq<bv32>
    var state: Hash
    const buf: array<Byte>
    var buflen: nat
    var bitlen: nat  // unsigned long long
    ghost var msg: seq<Byte>  // everything given to Update

    /** The whole blocks of msg are hashed, and the bytes after them are in buf. */
    ghost predicate Holding()
      reads this, buf
    {
      && |ks| == 64 && buf.Length == 64 && buflen <= 64 && Split(msg, buflen)
      && state == HashBlocks(ks, H0, msg[..|msg| - buflen]) && buf[..buflen] == msg[|msg| - buflen..]
      && bitlen == 8 * (|msg| - buflen) % WRAP
    }

    ghost predicate Valid()
      reads this, buf
    {
      Holding() && buflen < 64
    }

    /** sha256_init */
    constructor (ks: seq<bv32>)
      requires |ks| == 64
      ensures Valid() && this.ks == ks && msg == [] && fresh(buf)
    {
      this.ks := ks;
      state := H0;
      buf := new Byte[64](i => 0);
      buflen, bitlen, msg := 0, 0, [];
    }

    method HashFull()
      requires |ks| == 64 && buf.Length == 64 && Split(msg, 64)
      requires state == HashBlocks(ks, H0, msg[..|msg| - 64]) && buf[..64] == msg[|msg| - 64..]
      modifies this`state
      ensures Split(msg, 0) && state == HashBlocks(ks, H0, msg[..|msg| - 0])
    {
      FullBlock(ks, msg);
      assert buf[..] == buf[..64];
      state := Transform(ks, state, buf[..]);
    }

    method CountBlock(ghost n: nat)
      requires n >= 64 && bitlen == 8 * (n - 64) % WRAP
      modifies this`bitlen
      ensures bitlen == 8 * (n - 0) % WRAP
    {
      BlockBits(n);
      bitlen := (bitlen + 512) % WRAP;
    }

    /** A full buffer is hashed. */
    method Flush()
      requires Holding() && buflen == 64
      modifies this`state, this`buflen, this`bitlen
      ensures Valid()
    {
      HashFull();
      CountBlock(|msg|);
      buflen := 0;
    }

    /** The body of the loop of sha256_update. */
    method Feed(x: Byte)
      requires Valid()
      modifies this`state, this`buflen, this`bitlen, this`msg, buf
      ensures Valid() && msg == old(msg) + [x]
    {
      buf[buflen] := x;
      buflen := buflen + 1;
      msg := msg + [x];
      assert msg[..|msg| - buflen] == old(msg[..|msg| - buflen]);
      if buflen == 64 {
        Flush();
      }
    }

    /** sha256_update */
    method Update(data: seq<Byte>)
      requires Valid()
      modifies this`state, this`buflen, this`bitlen, this`msg, buf
      ensures Valid() && msg == old(msg) + data
    {
      var i := 0;
      while i < |data|
        invariant 0 <= i <= |data| && Valid() && msg == old(msg) + data[..i]
      {
        Feed(data[i]);
        i := i + 1;
        assert data[..i] == data[..i - 1] + [data[i - 1]];
      }
      assert data[..|data|] == data;
    }

    /** The loop of sha256_file. */
    method UpdateAll(pieces: seq<seq<Byte>>)
      requires Valid()
      modifies this`state, this`buflen, this`bitlen, this`msg, buf
      ensures Valid() && msg == old(msg) + Joined(pieces)
    {
      var i := 0;
      while i < |pieces|
        invariant 0 <= i <= |pieces| && Valid() && msg == old(msg) + Joined(pieces[..i])
      {
        JoinedNext(old(msg), pieces, i);
        Update(pieces[i]);
        i := i + 1;
      }
      assert pieces[..|pieces|] == pieces;
    }

    /** A loop that writes zeros. */
    method Fill(lo: nat, hi: nat)
      requires lo <= hi <= buf.Length
      modifies buf
      ensures buf[..lo] == old(buf[..lo]) && buf[lo..hi] == Zeros(hi - lo) && buf[hi..] == old(buf[hi..])
    {
      var i := lo;
      while i < hi
        invariant lo <= i <= hi
        invariant forall k | 0 <= k < buf.Length :: buf[k] == if lo <= k < i then 0 else old(buf[k])
      {
        buf[i] := 0;
        i := i + 1;
      }
    }

    /** sha256_final with room for the length: a 0x80 and zeros. */
    method PadShort(ghost len: seq<Byte>)
      requires Valid() && |len| == 8 && buflen < 56
      modifies buf
      ensures HashBlocks(ks, H0, PadWith(msg, len)) == Compress(ks, state, buf[..56] + len)
    {
      PutMark(56);
      assert buf[..56] == msg[|msg| - buflen..] + [0x80] + Zeros(55 - buflen);
      LastBlock(ks, msg, buflen, len, buf[..56] + len);
    }

    /** sha256_final without: another block. */
    method PadLong(ghost len: seq<Byte>)
      requires Valid() && |len| == 8 && buflen >= 56
      modifies this`state, buf
      ensures HashBlocks(ks, H0, PadWith(msg, len)) == Compress(ks, state, buf[..56] + len)
    {
      PutMark(64);
      assert buf[..] == buf[..64];
      ghost var b1 := buf[..];
      FlushPadding();
      LastTwoBlocks(ks, msg, buflen, len, b1, buf[..56] + len);
    }

    /** The 0x80 and zeros up to hi. */
    method PutMark(hi: nat)
      requires buf.Length == 64 && buflen < hi <= 64
      modifies buf
      ensures buf[..hi] == old(buf[..buflen]) + [0x80] + Zeros(hi - 1 - buflen)
    {
      buf[buflen] := 0x80;
      Fill(buflen + 1, hi);
      assert buf[..hi] == buf[..buflen + 1] + buf[buflen + 1..hi];
    }

    method PadBuffer(ghost len: seq<Byte>)
      requires Valid() && |len| == 8
      modifies this`state, buf
      ensures HashBlocks(ks, H0, PadWith(msg, len)) == Compress(ks, state, buf[..56] + len)
    {
      if buflen < 56 {
        PadShort(len);
      } else {
        PadLong(len);
      }
    }

    method FlushPadding()
      requires |ks| == 64 && buf.Length == 64
      modifies this`state, buf
      ensures state == Compress(ks, old(state), old(buf[..])) && buf[..56] == Zeros(56)
    {
      state := Transform(ks, state, buf[..]);
      Fill(0, 56);
      assert buf[..56] == buf[0..56];
    }

    /** The length and the last block. */
    method LastTransform(ghost len: seq<Byte>, ghost bits: nat)
      requires |ks| == 64 && buf.Length == 64 && len == Length64(bits) && bitlen == bits
      modifies this`state, buf
      ensures state == Compress(ks, old(state), old(buf[..56]) + len)
    {
      PutLength();
      assert buf[..] == buf[..56] + buf[56..];
      state := Transform(ks, state, buf[..]);
    }

    /** Everything of sha256_final but the output. */
    method Finish(ghost len: seq<Byte>)
      requires Valid() && |msg| < LIMIT && len == Length64(8 * |msg|)
      modifies this`state, this`bitlen, buf
      ensures state == HashBlocks(ks, H0, PadWith(msg, len))
    {
      PadBuffer(len);
      BitCount(|msg|, buflen);
      bitlen := (bitlen + buflen * 8) % WRAP;
      LastTransform(len, 8 * |msg|);
    }

    /** sha256_final: the digest of everything that was given to Update, however it was split. */
    method Final() returns (hash: array<Byte>)
      requires Valid() && |msg| < LIMIT
      modifies this`state, this`bitlen, buf
      ensures fresh(hash) && hash[..] == Digest(ks, msg)
    {
      Finish(Length64(8 * |msg|));
      hash := Output(state);
    }

    /** The length of the message in the last eight bytes of the block. */
    method PutLength()
      requires buf.Length == 64
      modifies buf
      ensures buf[..56] == old(buf[..56]) && buf[56..] == Length64(bitlen)
    {
      PutEight([Low(bitlen / 0x100_0000_0000_0000), Low(bitlen / 0x1_0000_0000_0000), Low(bitlen / 0x100_0000_0000),
                Low(bitlen / 0x1_0000_0000), Low(bitlen / 0x100_0000), Low(bitlen / 0x1_0000),
                Low(bitlen / 0x100), Low(bitlen)]);
    }

    method PutEight(bs: seq<Byte>)
      requires buf.Length == 64 && |bs| == 8
      modifies buf
      ensures buf[..56] == old(buf[..56]) && buf[56..] == bs
    {
      buf[63] := bs[7];
      buf[62] := bs[6];
      buf[61] := bs[5];
      buf[60] := bs[4];
      buf[59] := bs[3];
      buf[58] := bs[2];
      buf[57] := bs[1];
      buf[56] := bs[0];
    }
  }

  /** The first i bytes of each of the eight words are in place. */
  ghost predicate Placed(s: seq<Byte>, v: Hash, i: nat)
  {
    |s| == 32 && forall k | 0 <= k < 32 && k % 4 < i :: s[k] == OutByte(v, k)
  }

  lemma NextPlaced(s: seq<Byte>, r: seq<Byte>, v: Hash, i: nat, bs: seq<Byte>)
    requires i < 4 && Placed(s, v, i) && |r| == 32
    requires forall k | 0 <= k < 32 && k % 4 != i :: r[k] == s[k]
    requires |bs| == 8 && forall j | 0 <= j < 8 :: bs[j] == r[i + 4 * j]
    requires forall j | 0 <= j < 8 :: bs[j] == ByteOf(WordNo(v, j), i)
    ensures Placed(r, v, i + 1)
  {
    forall k | 0 <= k < 32 && k % 4 == i
      ensures r[k] == OutByte(v, k)
    {
      var j := k / 4;
      assert k == i + 4 * j && bs[j] == ByteOf(WordNo(v, j), i);
    }
  }

  /** The last loop of sha256_final. */
  method Output(v: Hash) returns (hash: array<Byte>)
    ensures fresh(hash) && hash[..] == HashBytes(v)
  {
    hash := new Byte[32](i => 0);
    var i := 0;
    while i < 4
      invariant 0 <= i <= 4 && hash.Length == 32 && Placed(hash[..], v, i)
    {
      ghost var s := hash[..];
      var bs := seq(8, j requires 0 <= j < 8 => ByteOf(WordNo(v, j), i));
      OutputColumn(hash, i, bs);
      NextPlaced(s, hash[..], v, i, bs);
      i := i + 1;
    }
  }

  method OutputColumn(hash: array<Byte>, i: nat, bs: seq<Byte>)
    requires hash.Length == 32 && i < 4 && |bs| == 8
    modifies hash
    ensures forall k | 0 <= k < 32 && k % 4 != i :: hash[k] == old(hash[k])
    ensures forall j | 0 <= j < 8 :: bs[j] == hash[i + 4 * j]
  {
    hash[i] := bs[0];
    hash[i + 4] := bs[1];
    hash[i + 8] := bs[2];
    hash[i + 12] := bs[3];
    hash[i + 16] := bs[4];
    hash[i + 20] := bs[5];
    hash[i + 24] := bs[6];
    hash[i + 28] := bs[7];
  }

  ghost predicate Split(msg: seq<Byte>, r: nat)
  {
    r <= |msg| && (|msg| - r) % 64 == 0
  }

  /** The bits counted block by block and at the end are those of the message. */
  lemma BitCount(n: nat, r: nat)
    requires r <= n < LIMIT
    ensures (8 * (n - r) % WRAP + r * 8) % WRAP == 8 * n
  {}

  lemma BlockBits(n: nat)
    requires n >= 64
    ensures (8 * (n - 64) % WRAP + 512) % WRAP == 8 * (n - 0) % WRAP
  {}

  /** The pieces one after another. */
  function Joined(pieces: seq<seq<Byte>>): seq<Byte>
  {
    if pieces == [] then [] else Joined(pieces[..|pieces| - 1]) + pieces[|pieces| - 1]
  }

  lemma JoinedNext(a: seq<Byte>, pieces: seq<seq<Byte>>, i: nat)
    requires i < |pieces|
    ensures a + Joined(pieces[..i]) + pieces[i] == a + Joined(pieces[..i + 1])
  {
    assert pieces[..i + 1][..i] == pieces[..i];
  }

  /** sha256_file, with any table of round constants. */
  method SumWith(ks: seq<bv32>, pieces: seq<seq<Byte>>) returns (hash: array<Byte>)
    requires |ks| == 64 && |Joined(pieces)| < LIMIT
    ensures hash[..] == Digest(ks, Joined(pieces))
  {
    var ctx := new Context(ks);
    ctx.UpdateAll(pieces);
    assert [] + Joined(pieces) == Joined(pieces);
    hash := ctx.Final();
  }

  /** sha256_file: however reads split the file, the result is the SHA-256 of all of it. */
  method Sum(pieces: seq<seq<Byte>>) returns (hash: array<Byte>)
    requires |Joined(pieces)| < LIMIT
    ensures hash[..] == Digest(K, Joined(pieces))
  {
    hash := SumWith(K, pieces);
  }
}
