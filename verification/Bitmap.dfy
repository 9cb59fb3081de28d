/** src/kernel/klib/bitmap.c: a set of small numbers, one bit each, in an array of bytes. */
module Bitmap {

  /** `1 << i` in a byte. */
  function Mask(i: int): bv8
  {
    if i == 0 then 1 else if i == 1 then 2 else if i == 2 then 4 else if i == 3 then 8
    else if i == 4 then 16 else if i == 5 then 32 else if i == 6 then 64 else 128
  }

  /** Bit i of a byte. */
  predicate Bit(x: bv8, i: int)
  {
    x & Mask(i) != 0
  }

  /** poplow: the lowest clear bit of a byte that is not full. */
  function PopLow(x: bv8): (low: int)
    requires x != 0xFF
    ensures 0 <= low < 8 && !Bit(x, low)
    ensures forall i | 0 <= i < low :: Bit(x, i)
  {
    if x & 1 == 0 then 0
    else if x & 2 == 0 then 1
    else if x & 4 == 0 then 2
    else if x & 8 == 0 then 3
    else if x & 16 == 0 then 4
    else if x & 32 == 0 then 5
    else if x & 64 == 0 then 6
    else 7
  }

  lemma SetBit(x: bv8, i: int, j: int)
    requires 0 <= i < 8 && 0 <= j < 8
    ensures Bit(x | Mask(i), j) <==> Bit(x, j) || i == j
    ensures Bit(x & !Mask(i), j) <==> Bit(x, j) && i != j
  {
    var m, k := Mask(i), Mask(j);
    assert if i == j then m == k else m & k == 0;
  }

  lemma FullByte(x: bv8)
    ensures x == 0xFF <==> forall i | 0 <= i < 8 :: Bit(x, i)
  {
    if x != 0xFF {
      assert !Bit(x, PopLow(x));
    }
  }

  ghost function Below(n: nat): (s: set<int>)
    ensures forall i :: i in s <==> 0 <= i < n
    ensures |s| == n
  {
    if n == 0 then {} else Below(n - 1) + {n - 1}
  }

  ghost predicate BitAt(s: seq<bv8>, i: int)
  {
    0 <= i < 8 * |s| && Bit(s[i / 8], i % 8)
  }

  ghost function BitsOf(s: seq<bv8>): set<int>
  {
    set i | 0 <= i < 8 * |s| && BitAt(s, i)
  }

  function Written(x: bv8, low: int, on: bool): bv8
  {
    if on then x | Mask(low) else x & !Mask(low)
  }

  lemma WrittenBit(s: seq<bv8>, i: int, on: bool, j: int)
    requires 0 <= i < 8 * |s| && 0 <= j < 8 * |s|
    ensures BitAt(s[i / 8 := Written(s[i / 8], i % 8, on)], j) <==> if j == i then on else BitAt(s, j)
  {
    if j / 8 == i / 8 {
      SetBit(s[i / 8], i % 8, j % 8);
    }
  }

  lemma WrittenBits(s: seq<bv8>, i: int, on: bool)
    requires 0 <= i < 8 * |s|
    ensures BitsOf(s[i / 8 := Written(s[i / 8], i % 8, on)]) ==
            if on then BitsOf(s) + {i} else BitsOf(s) - {i}
  {
    var s' := s[i / 8 := Written(s[i / 8], i % 8, on)];
    forall j | 0 <= j < 8 * |s|
      ensures BitAt(s', j) <==> if j == i then on else BitAt(s, j)
    {
      WrittenBit(s, i, on, j);
    }
  }

  /** A full byte: eight consecutive members. */
  lemma FullAt(s: seq<bv8>, k: int, i: int)
    requires 0 <= k < |s| && s[k] == 0xFF && 8 * k <= i < 8 * k + 8
    ensures BitAt(s, i)
  {
    FullByte(s[k]);
    assert i / 8 == k;
  }

  /** The lowest clear bit of the first byte that is not full. */
  lemma FirstClear(s: seq<bv8>, k: int)
    requires 0 <= k < |s| && s[k] != 0xFF && forall i | 0 <= i < k :: s[i] == 0xFF
    ensures var r := PopLow(s[k]) + 8 * k;
      && 0 <= r < 8 * |s| && r / 8 == k && r % 8 == PopLow(s[k])
      && r !in BitsOf(s) && forall i | 0 <= i < r :: i in BitsOf(s)
  {
    var r := PopLow(s[k]) + 8 * k;
    assert r / 8 == k && r % 8 == PopLow(s[k]);
    forall i | 0 <= i < r
      ensures i in BitsOf(s)
    {
      if i < 8 * k {
        FullAt(s, i / 8, i);
      } else {
        assert i / 8 == k && i % 8 == i - 8 * k;
      }
    }
  }

  lemma AllFull(s: seq<bv8>)
    requires forall k | 0 <= k < |s| :: s[k] == 0xFF
    ensures BitsOf(s) == Below(8 * |s|)
  {
    forall i | 0 <= i < 8 * |s|
      ensures BitAt(s, i)
    {
      FullAt(s, i / 8, i);
    }
  }

  lemma RoomLeft(s: seq<bv8>)
    ensures |BitsOf(s)| <= 8 * |s|
    ensures BitsOf(s) == Below(8 * |s|) <==> |BitsOf(s)| == 8 * |s|
  {
    SubsetSize(BitsOf(s), Below(8 * |s|));
    if BitsOf(s) != Below(8 * |s|) {
      assert !(Below(8 * |s|) <= BitsOf(s));
      var x :| x in Below(8 * |s|) && x !in BitsOf(s);
      SubsetSize(BitsOf(s) + {x}, Below(8 * |s|));
    }
  }

  lemma NotFull(s: seq<bv8>, r: int)
    requires 0 <= r < 8 * |s| && r !in BitsOf(s)
    ensures |BitsOf(s)| != 8 * |s|
  {
    RoomLeft(s);
    assert r in Below(8 * |s|);
  }

  lemma AllTaken(s: seq<bv8>)
    requires forall k | 0 <= k < |s| :: s[k] == 0xFF
    ensures |BitsOf(s)| == 8 * |s| && forall i | 0 <= i < 8 * |s| :: i in BitsOf(s)
  {
    AllFull(s);
    RoomLeft(s);
  }

  class BitSet {
    var bytes: array<bv8>
    var siz: nat

    ghost predicate Valid()
      reads this
    {
      siz == 8 * bytes.Length
    }

    ghost function Used(): set<int>
      requires Valid()
      reads this, bytes
    {
      BitsOf(bytes[..])
    }

    /** A cleared map of n bytes; bitmap_init over zeroed memory. */
    constructor (n: nat)
      ensures Valid() && fresh(bytes) && siz == 8 * n && Used() == {}
    {
      bytes := new bv8[n](_ => 0);
      siz := 8 * n;
      new;
      assert forall i | 0 <= i < 8 * n :: !BitAt(bytes[..], i);
    }

    /** The loop over full bytes. */
    method SkipFull(max: nat) returns (idx: nat)
      requires max <= bytes.Length
      ensures idx <= max && (idx < max ==> bytes[idx] != 0xFF) && forall k | 0 <= k < idx :: bytes[k] == 0xFF
    {
      idx := 0;
      while idx < max && bytes[idx] == 0xFF
        invariant 0 <= idx <= max
        invariant forall k | 0 <= k < idx :: bytes[k] == 0xFF
      {
        idx := idx + 1;
      }
    }

    /** bitmap_find: takes the least free number, or fails when there is none. */
    method Find() returns (r: int)
      requires Valid()
      modifies bytes
      ensures r == -1 <==> |old(Used())| == siz
      ensures r == -1 ==> Used() == old(Used()) && forall i | 0 <= i < siz :: i in Used()
      ensures r != -1 ==> 0 <= r < siz && r !in old(Used()) && Used() == old(Used()) + {r}
      ensures r != -1 ==> forall i | 0 <= i < r :: i in old(Used())
    {
      var max := siz / 8;
      var idx := SkipFull(max);
      if idx == max {
        AllTaken(bytes[..]);
        return -1;
      }
      FirstClear(bytes[..], idx);
      NotFull(bytes[..], PopLow(bytes[idx]) + 8 * idx);
      var low := PopLow(bytes[idx]);
      r := low + 8 * idx;
      WriteBit(r, true);
    }

    /** `SET(map[i / 8], i % 8)` or `CLR(map[i / 8], i % 8)` */
    method WriteBit(i: int, on: bool)
      requires Valid() && 0 <= i < siz
      modifies bytes
      ensures Used() == if on then old(Used()) + {i} else old(Used()) - {i}
    {
      WrittenBits(bytes[..], i, on);
      bytes[i / 8] := Written(bytes[i / 8], i % 8, on);
      assert bytes[..] == old(bytes[..])[i / 8 := Written(old(bytes[i / 8]), i % 8, on)];
    }

    /** bitmap_reset */
    method Reset(i: int)
      requires Valid() && 0 <= i < siz
      modifies bytes
      ensures Used() == old(Used()) - {i}
    {
      WriteBit(i, false);
    }

    /** bitmap_set */
    method Set(i: int)
      requires Valid() && 0 <= i < siz
      modifies bytes
      ensures Used() == old(Used()) + {i}
    {
      WriteBit(i, true);
    }

    /** bitmap_test */
    method Test(i: int) returns (b: bool)
      requires Valid() && 0 <= i < siz
      ensures b <==> i in Used()
    {
      b := bytes[i / 8] & Mask(i % 8) != 0;
    }
  }

  lemma SubsetSize<T>(a: set<T>, b: set<T>)
    requires a <= b
    ensures |a| <= |b|
  {
    if a != {} {
      var x :| x in a;
      SubsetSize(a - {x}, b - {x});
    }
  }
}
