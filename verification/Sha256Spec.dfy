/** SHA-256 as sections 4.1.2, 5 and 6.2 of FIPS 180-4 define it, on messages of whole bytes. */
module Sha256Spec {
  type Byte = bv8

  /** Eight words: a hash value, or the working variables. */
  datatype Hash = Hash(a: bv32, b: bv32, c: bv32, d: bv32, e: bv32, f: bv32, g: bv32, h: bv32)

  const H0 := Hash(0x6a09e667, 0xbb67ae85, 0x3c6ef372, 0xa54ff53a, 0x510e527f, 0x9b05688c, 0x1f83d9ab, 0x5be0cd19)

  /** The round constants of section 4.2.2, in rows of eight. */
  const K0: seq<bv32> :=
    [0x428a2f98, 0x71374491, 0xb5c0fbcf, 0xe9b5dba5, 0x3956c25b, 0x59f111f1, 0x923f82a4, 0xab1c5ed5]
  const K1: seq<bv32> :=
    [0xd807aa98, 0x12835b01, 0x243185be, 0x550c7dc3, 0x72be5d74, 0x80deb1fe, 0x9bdc06a7, 0xc19bf174]
  const K2: seq<bv32> :=
    [0xe49b69c1, 0xefbe4786, 0x0fc19dc6, 0x240ca1cc, 0x2de92c6f, 0x4a7484aa, 0x5cb0a9dc, 0x76f988da]
  const K3: seq<bv32> :=
    [0x983e5152, 0xa831c66d, 0xb00327c8, 0xbf597fc7, 0xc6e00bf3, 0xd5a79147, 0x06ca6351, 0x14292967]
  const K4: seq<bv32> :=
    [0x27b70a85, 0x2e1b2138, 0x4d2c6dfc, 0x53380d13, 0x650a7354, 0x766a0abb, 0x81c2c92e, 0x92722c85]
  const K5: seq<bv32> :=
    [0xa2bfe8a1, 0xa81a664b, 0xc24b8b70, 0xc76c51a3, 0xd192e819, 0xd6990624, 0xf40e3585, 0x106aa070]
  const K6: seq<bv32> :=
    [0x19a4c116, 0x1e376c08, 0x2748774c, 0x34b0bcb5, 0x391c0cb3, 0x4ed8aa4a, 0x5b9cca4f, 0x682e6ff3]
  const K7: seq<bv32> :=
    [0x748f82ee, 0x78a5636f, 0x84c87814, 0x8cc70208, 0x90befffa, 0xa4506ceb, 0xbef9a3f7, 0xc67178f2]
  const K: seq<bv32> := K0 + K1 + K2 + K3 + K4 + K5 + K6 + K7

  /** Addition modulo 2^32. */
  function Plus(x: bv32, y: bv32): bv32
  {
    x + y
  }

  // ---------- section 4.1.2 ----------

  function Ch(x: bv32, y: bv32, z: bv32): bv32
  {
    (x & y) ^ (!x & z)
  }

  function Maj(x: bv32, y: bv32, z: bv32): bv32
  {
    (x & y) ^ (x & z) ^ (y & z)
  }

  function BigSigma0(x: bv32): bv32
  {
    ((x >> 2) | (x << 30)) ^ ((x >> 13) | (x << 19)) ^ ((x >> 22) | (x << 10))
  }

  function BigSigma1(x: bv32): bv32
  {
    ((x >> 6) | (x << 26)) ^ ((x >> 11) | (x << 21)) ^ ((x >> 25) | (x << 7))
  }

  function SmallSigma0(x: bv32): bv32
  {
    ((x >> 7) | (x << 25)) ^ ((x >> 18) | (x << 14)) ^ (x >> 3)
  }

  function SmallSigma1(x: bv32): bv32
  {
    ((x >> 17) | (x << 15)) ^ ((x >> 19) | (x << 13)) ^ (x >> 10)
  }

  // ---------- section 6.2.2: one block ----------

  /** Four bytes as a word, the first the most significant. */
  function WordAt(block: seq<Byte>, i: nat): bv32
    requires i < 16 && |block| == 64
  {
    (block[4 * i] as bv32 << 24) | (block[4 * i + 1] as bv32 << 16)
    | (block[4 * i + 2] as bv32 << 8) | (block[4 * i + 3] as bv32)
  }

  function Mix(w2: bv32, w7: bv32, w15: bv32, w16: bv32): bv32
  {
    Plus(Plus(Plus(SmallSigma1(w2), w7), SmallSigma0(w15)), w16)
  }

  /** The message schedule. */
  function Schedule(block: seq<Byte>, t: nat): bv32
    requires |block| == 64
  {
    if t < 16 then WordAt(block, t)
    else Mix(Schedule(block, t - 2), Schedule(block, t - 7), Schedule(block, t - 15), Schedule(block, t - 16))
  }

  function T1(e: bv32, f: bv32, g: bv32, h: bv32, k: bv32, w: bv32): bv32
  {
    Plus(Plus(Plus(Plus(h, BigSigma1(e)), Ch(e, f, g)), k), w)
  }

  function T2(a: bv32, b: bv32, c: bv32): bv32
  {
    Plus(BigSigma0(a), Maj(a, b, c))
  }

  /** One round, with its schedule word and constant. */
  function Round(v: Hash, w: bv32, k: bv32): Hash
  {
    var t1 := T1(v.e, v.f, v.g, v.h, k, w);
    Hash(Plus(t1, T2(v.a, v.b, v.c)), v.a, v.b, v.c, Plus(v.d, t1), v.e, v.f, v.g)
  }

  function Rounds(ks: seq<bv32>, v: Hash, block: seq<Byte>, n: nat): Hash
    requires |block| == 64 && n <= |ks|
  {
    if n == 0 then v else Round(Rounds(ks, v, block, n - 1), Schedule(block, n - 1), ks[n - 1])
  }

  function AddHash(x: Hash, y: Hash): Hash
  {
    Hash(Plus(x.a, y.a), Plus(x.b, y.b), Plus(x.c, y.c), Plus(x.d, y.d),
         Plus(x.e, y.e), Plus(x.f, y.f), Plus(x.g, y.g), Plus(x.h, y.h))
  }

  function Compress(ks: seq<bv32>, v: Hash, block: seq<Byte>): Hash
    requires |block| == 64 && |ks| == 64
  {
    AddHash(v, Rounds(ks, v, block, 64))
  }

  // ---------- section 5: padding and parsing ----------

  function Zeros(n: nat): seq<Byte>
  {
    seq(n, i => 0)
  }

  /** A 64-bit number, most significant byte first. */
  function Length64(n: nat): (r: seq<Byte>)
    ensures |r| == 8
  {
    [Low(n / 0x100_0000_0000_0000), Low(n / 0x1_0000_0000_0000), Low(n / 0x100_0000_0000), Low(n / 0x1_0000_0000),
     Low(n / 0x100_0000), Low(n / 0x1_0000), Low(n / 0x100), Low(n)]
  }

  /** The low byte of a number. */
  function Low(n: nat): Byte
  {
    (n % 256) as bv8
  }

  /** The least number of zero bytes that makes n bytes, a 0x80 and eight more fill whole blocks. */
  function Gap(n: nat): (k: nat)
    ensures k < 64
  {
    (119 - n % 64) % 64
  }

  /** A one bit, the fewest zero bits that make whole blocks of the result, and the length field. */
  function PadWith(msg: seq<Byte>, len: seq<Byte>): seq<Byte>
  {
    msg + [0x80] + Zeros(Gap(|msg|)) + len
  }

  /** The length field is the length of the message in bits. */
  function Pad(msg: seq<Byte>): seq<Byte>
  {
    PadWith(msg, Length64(8 * |msg|))
  }

  function HashBlocks(ks: seq<bv32>, v: Hash, m: seq<Byte>): Hash
    requires |ks| == 64
    decreases |m|
  {
    if |m| < 64 then v else HashBlocks(ks, Compress(ks, v, m[..64]), m[64..])
  }

  /** Byte i of a word, the first the most significant: `w >> (24 - 8 * i) & 0xff`. */
  function ByteOf(w: bv32, i: nat): Byte
    requires i < 4
  {
    if i == 0 then ((w >> 24) & 0xff) as bv8
    else if i == 1 then ((w >> 16) & 0xff) as bv8
    else if i == 2 then ((w >> 8) & 0xff) as bv8
    else (w & 0xff) as bv8
  }

  function WordNo(v: Hash, j: nat): bv32
    requires j < 8
  {
    match j
    case 0 => v.a
    case 1 => v.b
    case 2 => v.c
    case 3 => v.d
    case 4 => v.e
    case 5 => v.f
    case 6 => v.g
    case 7 => v.h
  }

  function OutByte(v: Hash, k: nat): Byte
    requires k < 32
  {
    ByteOf(WordNo(v, k / 4), k % 4)
  }

  /** The eight words one after another. */
  function HashBytes(v: Hash): seq<Byte>
  {
    seq(32, k requires 0 <= k < 32 => OutByte(v, k))
  }

  function Digest(ks: seq<bv32>, msg: seq<Byte>): seq<Byte>
    requires |ks| == 64
  {
    HashBytes(HashBlocks(ks, H0, Pad(msg)))
  }

  // ---------- facts ----------

  /** It takes the rest of the block, or another block. */
  lemma GapIs(n: nat, r: nat)
    requires r == n % 64
    ensures Gap(n) == if r < 56 then 55 - r else 119 - r
  {
    if r < 56 {
      assert 119 - r == 64 + (55 - r);
    }
  }

  /** And no smaller number does: n + k + 9 is a multiple of 64 for exactly one k below 64. */
  lemma GapExact(n: nat, k: nat)
    requires k < 64
    ensures (n + 9 + k) % 64 == 0 <==> k == Gap(n)
  {
    var q, r := n / 64, n % 64;
    assert n == 64 * q + r;
    GapIs(n, r);
    assert n + 9 + k == 64 * q + (r + 9 + k);
    assert (n + 9 + k) % 64 == (r + 9 + k) % 64;
  }

  /** Padding fills whole blocks. */
  lemma PadWhole(msg: seq<Byte>)
    ensures |Pad(msg)| % 64 == 0
  {
    GapExact(|msg|, Gap(|msg|));
    assert |Pad(msg)| == |msg| + 9 + Gap(|msg|);
  }

  /** Whole blocks can be hashed first. */
  lemma {:induction false} HashSplit(ks: seq<bv32>, v: Hash, a: seq<Byte>, b: seq<Byte>)
    requires |ks| == 64 && |a| % 64 == 0
    ensures HashBlocks(ks, v, a + b) == HashBlocks(ks, HashBlocks(ks, v, a), b)
    decreases |a|
  {
    if a == [] {
      assert a + b == b;
    } else {
      assert (a + b)[..64] == a[..64] && (a + b)[64..] == a[64..] + b;
      HashSplit(ks, Compress(ks, v, a[..64]), a[64..], b);
    }
  }

  lemma HashOne(ks: seq<bv32>, v: Hash, block: seq<Byte>)
    requires |ks| == 64 && |block| == 64
    ensures HashBlocks(ks, v, block) == Compress(ks, v, block)
  {
    assert block[..64] == block && block[64..] == [];
  }
}
