/** src/kernel/net: the Internet checksum of section 1 of RFC 1071, as icmp.c, tcp.c and ip.c
compute it. */
module Checksum {
  type Byte = x: int | 0 <= x < 256

  /** The one's-complement value of a sum of 16-bit words: 0 only for 0, and otherwise the
      number from 1 to 0xFFFF that is congruent to it modulo 0xFFFF. */
  function OnesSum(s: nat): (r: nat)
    ensures r <= 0xFFFF
  {
    if s == 0 then 0 else (s - 1) % 0xFFFF + 1
  }

  /** The sum of the words as the processor loads them, low byte first; an odd byte at the end
      counts as a word with a zero byte behind it. */
  function Sum(d: seq<Byte>): nat
  {
    if |d| == 0 then 0 else if |d| == 1 then d[0] else d[0] + 256 * d[1] + Sum(d[2..])
  }

  /** The sum of the words in network byte order. */
  function NetSum(d: seq<Byte>): nat
  {
    if |d| == 0 then 0 else if |d| == 1 then 256 * d[0] else 256 * d[0] + d[1] + NetSum(d[2..])
  }

  // ---------- folding ----------

  /** The two-step fold of icmp.c and tcp.c, and the cast to 16 bits. */
  function TwoStep(s: nat): nat
    requires s < 0x1_0000_0000
  {
    var t := s / 0x1_0000 + s % 0x1_0000;
    (t + t / 0x1_0000) % 0x1_0000
  }

  /** Replacing a sum by its halves added keeps its one's-complement value. */
  lemma FoldKeeps(s: nat)
    ensures OnesSum(s / 0x1_0000 + s % 0x1_0000) == OnesSum(s)
  {
    var q, r := s / 0x1_0000, s % 0x1_0000;
    assert s == 0x1_0000 * q + r;
    if s > 0 {
      Congruent(q + r - 1, q);
    }
  }

  lemma Congruent(a: nat, k: nat)
    ensures (a + 0xFFFF * k) % 0xFFFF == a % 0xFFFF
  {}

  lemma Small(s: nat)
    requires s < 0x1_0000
    ensures OnesSum(s) == s
  {}

  lemma TwoStepIs(s: nat)
    requires s < 0x1_0000_0000
    ensures TwoStep(s) == OnesSum(s)
  {
    var t := s / 0x1_0000 + s % 0x1_0000;
    FoldKeeps(s);
    FoldKeeps(t);
    assert t <= 0x1_FFFE;
    if t < 0x1_0000 {
      Small(t);
    } else {
      Small(t / 0x1_0000 + t % 0x1_0000);
      assert t / 0x1_0000 == 1;
    }
  }

  /** The loop fold of ip.c; it agrees with the two-step fold on every 32-bit sum. */
  method LoopFold(sum: nat) returns (s: nat)
    requires sum < 0x1_0000_0000
    ensures s == OnesSum(sum) == TwoStep(sum)
  {
    s := sum;
    TwoStepIs(sum);
    while s / 0x1_0000 != 0
      invariant s < 0x1_0000_0000 && OnesSum(s) == OnesSum(sum)
      decreases s
    {
      FoldKeeps(s);
      s := s % 0x1_0000 + s / 0x1_0000;
    }
    Small(s);
  }

  // ---------- the three checksums ----------

  lemma {:induction false} SumBound(d: seq<Byte>)
    ensures Sum(d) <= 32768 * (|d| + 1)
  {
    if |d| < 2 {
    } else {
      SumBound(d[2..]);
    }
  }

  /** The loop over the words and the odd byte, in 32 bits. */
  method AddWords(s0: nat, d: seq<Byte>) returns (s: nat)
    requires s0 + Sum(d) < 0x1_0000_0000
    ensures s == s0 + Sum(d)
  {
    s := s0;
    var p, len := 0, |d|;
    while len > 1
      invariant 0 <= len <= |d| && p == |d| - len && s + Sum(d[p..]) == s0 + Sum(d)
    {
      assert d[p..][2..] == d[p + 2..];
      var word: int := (d[p] as int) + 256 * (d[p + 1] as int);
      s := (s + word) % 0x1_0000_0000;
      p, len := p + 2, len - 2;
    }
    if len == 1 {
      s := (s + d[p]) % 0x1_0000_0000;
    }
  }

  /** cksum of icmp.c, for packets of any length up to 65535. */
  method Icmp(d: seq<Byte>) returns (c: nat)
    requires |d| <= 0xFFFF
    ensures c == 0xFFFF - OnesSum(Sum(d))
  {
    SumBound(d);
    var s := AddWords(0, d);
    TwoStepIs(s);
    s := s / 0x1_0000 + s % 0x1_0000;
    s := s + s / 0x1_0000;
    c := 0xFFFF - s % 0x1_0000;
  }

  /** The pseudo-header of section 3.1 of RFC 9293: addresses, zero, protocol 6, and the length
      in network order. */
  function Pseudo(sip: seq<Byte>, dip: seq<Byte>, len: nat): seq<Byte>
    requires len <= 0xFFFF
  {
    sip + dip + [0, 6, len / 256, len % 256]
  }

  /** net_cksum_tcp: the segment and the pseudo-header. */
  method Tcp(d: seq<Byte>, sip: seq<Byte>, dip: seq<Byte>) returns (c: nat)
    requires |d| <= 0xFFFF && |sip| == |dip| == 4
    ensures c == 0xFFFF - OnesSum(Sum(Pseudo(sip, dip, |d|) + d))
  {
    var pseudo := Pseudo(sip, dip, |d|);
    SumBound(d);
    SumBound(pseudo);
    var s := AddWords(0, d);
    s := AddWords(s, pseudo);
    SumAppend(pseudo, d);
    TwoStepIs(s);
    s := s / 0x1_0000 + s % 0x1_0000;
    s := s + s / 0x1_0000;
    c := 0xFFFF - s % 0x1_0000;
  }

  /** cksum of ip.c, over a header of twenty bytes. */
  method Ip(d: seq<Byte>) returns (c: nat)
    requires |d| == 20
    ensures c == 0xFFFF - OnesSum(Sum(d))
  {
    SumBound(d);
    var s := AddWords(0, d);
    s := LoopFold(s);
    c := 0xFFFF - s;
  }

  lemma {:induction false} SumAppend(a: seq<Byte>, b: seq<Byte>)
    requires |a| % 2 == 0
    ensures Sum(a + b) == Sum(a) + Sum(b)
    decreases |a|
  {
    if a == [] {
      assert a + b == b;
    } else {
      assert (a + b)[2..] == a[2..] + b;
      SumAppend(a[2..], b);
    }
  }

  lemma {:induction false} NetAppend(a: seq<Byte>, b: seq<Byte>)
    requires |a| % 2 == 0
    ensures NetSum(a + b) == NetSum(a) + NetSum(b)
    decreases |a|
  {
    if a == [] {
      assert a + b == b;
    } else {
      assert (a + b)[2..] == a[2..] + b;
      NetAppend(a[2..], b);
    }
  }

  /** A 16-bit word in network order. */
  function Net16(high: int, low: int): int
  {
    256 * high + low
  }

  lemma FourBytes(a: seq<Byte>)
    requires |a| == 4
    ensures NetSum(a) == Net16(a[0], a[1]) + Net16(a[2], a[3])
  {
    var b := a[2..];
    assert b[2..] == [] && b[0] == a[2] && b[1] == a[3];
    assert NetSum(b) == Net16(b[0], b[1]) + NetSum(b[2..]);
  }

  lemma LengthWord(sip: seq<Byte>, dip: seq<Byte>, len: nat) returns (tail: seq<Byte>)
    requires len <= 0xFFFF
    ensures Pseudo(sip, dip, len) == sip + dip + tail && |tail| == 4 && NetSum(tail) == 6 + len
  {
    tail := [0, 6, len / 256, len % 256];
    FourBytes(tail);
  }

  lemma FourParts(a: seq<Byte>, b: seq<Byte>, c: seq<Byte>, d: seq<Byte>)
    requires |a| == |b| == |c| == 4
    ensures NetSum(a + b + c + d) == NetSum(a) + NetSum(b) + NetSum(c) + NetSum(d)
  {
    NetAppend(a + b + c, d);
    NetAppend(a + b, c);
    NetAppend(a, b);
  }

  /** In network order a segment with its pseudo-header sums to the four words of the addresses, the protocol
      number, the length and the words of the segment. */
  lemma PseudoSum(sip: seq<Byte>, dip: seq<Byte>, d: seq<Byte>)
    requires |d| <= 0xFFFF && |sip| == |dip| == 4
    ensures NetSum(Pseudo(sip, dip, |d|) + d) ==
      Net16(sip[0], sip[1]) + Net16(sip[2], sip[3]) + Net16(dip[0], dip[1]) + Net16(dip[2], dip[3])
      + 6 + |d| + NetSum(d)
  {
    var tail := LengthWord(sip, dip, |d|);
    FourParts(sip, dip, tail, d);
    FourBytes(sip);
    FourBytes(dip);
  }

  // ---------- what the checksum is for ----------

  /** The packet with the checksum c stored at k. */
  function Stored(d: seq<Byte>, k: nat, c: nat): seq<Byte>
    requires k + 1 < |d| && c <= 0xFFFF
  {
    d[k := c % 256][k + 1 := c / 256]
  }

  lemma {:induction false} SumStored(d: seq<Byte>, k: nat, c: nat)
    requires k % 2 == 0 && k + 1 < |d| && c <= 0xFFFF && d[k] == 0 && d[k + 1] == 0
    ensures Sum(Stored(d, k, c)) == Sum(d) + c
    decreases |d|
  {
    var r := Stored(d, k, c);
    if k == 0 {
      assert r[2..] == d[2..];
    } else {
      assert r[2..] == Stored(d[2..], k - 2, c);
      SumStored(d[2..], k - 2, c);
    }
  }

  /** A sum and the complement of its one's-complement value add up to 0xFFFF. */
  lemma Complement(s: nat)
    ensures OnesSum(s + (0xFFFF - OnesSum(s))) == 0xFFFF
  {
    if s > 0 {
      var q, r := (s - 1) / 0xFFFF, (s - 1) % 0xFFFF;
      assert s - 1 == 0xFFFF * q + r;
      assert s + (0xFFFF - OnesSum(s)) - 1 == 0xFFFE + 0xFFFF * q;
      Congruent(0xFFFE, q);
    }
  }

  /** Stored in its zeroed field, at an even offset, the checksum makes the whole packet sum to
      0xFFFF, odd lengths included. */
  lemma Verifies(d: seq<Byte>, k: nat, c: nat)
    requires k % 2 == 0 && k + 1 < |d| && d[k] == 0 && d[k + 1] == 0 && c == 0xFFFF - OnesSum(Sum(d))
    ensures OnesSum(Sum(Stored(d, k, c))) == 0xFFFF
  {
    SumStored(d, k, c);
    Complement(Sum(d));
  }

  // ---------- byte order ----------

  /** The sum of the second bytes of the words. */
  function High(d: seq<Byte>): nat
  {
    if |d| < 2 then 0 else d[1] + High(d[2..])
  }

  lemma {:induction false} SwappedSum(d: seq<Byte>)
    ensures 256 * Sum(d) == NetSum(d) + 0xFFFF * High(d)
  {
    if |d| < 2 {
    } else {
      SwappedSum(d[2..]);
    }
  }

  /** A receiver that adds the words in network order finds 0xFFFF exactly when one that adds
      them low byte first does. */
  lemma OrderFree(d: seq<Byte>)
    ensures OnesSum(NetSum(d)) == 0xFFFF <==> OnesSum(Sum(d)) == 0xFFFF
  {
    SwappedSum(d);
    Multiples(Sum(d));
    Multiples(NetSum(d));
    BothZero(d);
    SwappedMultiples(Sum(d), NetSum(d), High(d));
  }

  lemma SwappedMultiples(s: nat, n: nat, h: nat)
    requires 256 * s == n + 0xFFFF * h
    ensures n % 0xFFFF == 0 <==> s % 0xFFFF == 0
  {
    if n % 0xFFFF == 0 {
      var q := n / 0xFFFF;
      assert 256 * s == 0xFFFF * (q + h);
      Coprime(s, q + h);
    }
    if s % 0xFFFF == 0 {
      var q := s / 0xFFFF;
      assert n == 0xFFFF * (256 * q - h);
    }
  }

  lemma Multiples(s: nat)
    ensures OnesSum(s) == 0xFFFF <==> s > 0 && s % 0xFFFF == 0
  {
    if s > 0 {
      var q, r := (s - 1) / 0xFFFF, (s - 1) % 0xFFFF;
      assert s == 0xFFFF * q + (r + 1);
    }
  }

  /** 256 has an inverse modulo 0xFFFF. */
  lemma Coprime(s: nat, q: int)
    requires 256 * s == 0xFFFF * q
    ensures s % 0xFFFF == 0
  {
    assert s == 0xFFFF * (256 * q - s);
  }

  lemma {:induction false} BothZero(d: seq<Byte>)
    ensures Sum(d) == 0 <==> NetSum(d) == 0
  {
    if |d| < 2 {
    } else {
      BothZero(d[2..]);
    }
  }
}
