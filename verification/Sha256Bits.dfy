/** What the functions of section 4.1.2 of FIPS 180-4 do to each bit of a word, and how bytes make words.

Words are related by predicates where a term would do, so that no proof has to do with more than one
operation at a time.
*/
module Sha256Bits {
  import opened Sha256Spec

  /** Bit i of a word, the lowest being bit 0. */
  predicate Bit(x: bv32, i: nat)
  {
    if i == 0 then x & 1 == 1 else Bit(x >> 1, i - 1)
  }

  predicate IsHalf(x: bv32, y: bv32)
  {
    y == x >> 1
  }

  lemma Half(x: bv32) returns (y: bv32)
    ensures IsHalf(x, y)
  {
    y := x >> 1;
  }

  lemma HalfBit(x: bv32, y: bv32, i: nat)
    requires IsHalf(x, y) && i > 0
    ensures Bit(x, i) == Bit(y, i - 1)
  {}

  // ---------- choosing ----------

  predicate IsCh(x: bv32, y: bv32, z: bv32, w: bv32)
  {
    w == Ch(x, y, z)
  }

  predicate ChAt(x: bv32, y: bv32, z: bv32, w: bv32, i: nat)
  {
    Bit(w, i) <==> if Bit(x, i) then Bit(y, i) else Bit(z, i)
  }

  lemma ChLow(x: bv32, y: bv32, z: bv32, w: bv32)
    requires IsCh(x, y, z, w)
    ensures ChAt(x, y, z, w, 0)
  {}

  lemma ChHalf(x: bv32, y: bv32, z: bv32, w: bv32, x': bv32, y': bv32, z': bv32, w': bv32)
    requires IsCh(x, y, z, w) && IsHalf(x, x') && IsHalf(y, y') && IsHalf(z, z') && IsHalf(w, w')
    ensures IsCh(x', y', z', w')
  {}

  lemma ChUp(x: bv32, y: bv32, z: bv32, w: bv32, x': bv32, y': bv32, z': bv32, w': bv32, i: nat)
    requires IsHalf(x, x') && IsHalf(y, y') && IsHalf(z, z') && IsHalf(w, w') && i > 0
    requires ChAt(x', y', z', w', i - 1)
    ensures ChAt(x, y, z, w, i)
  {}

  lemma {:induction false} ChWord(x: bv32, y: bv32, z: bv32, w: bv32, i: nat)
    requires IsCh(x, y, z, w)
    ensures ChAt(x, y, z, w, i)
    decreases i
  {
    if i == 0 {
      ChLow(x, y, z, w);
    } else {
      var x' := Half(x);
      var y' := Half(y);
      var z' := Half(z);
      var w' := Half(w);
      ChHalf(x, y, z, w, x', y', z', w');
      ChWord(x', y', z', w', i - 1);
      ChUp(x, y, z, w, x', y', z', w', i);
    }
  }

  /** Ch takes y where x has a one, and z elsewhere. */
  lemma ChBit(x: bv32, y: bv32, z: bv32, i: nat)
    ensures Bit(Ch(x, y, z), i) <==> if Bit(x, i) then Bit(y, i) else Bit(z, i)
  {
    ChWord(x, y, z, Ch(x, y, z), i);
  }

  predicate IsMaj(x: bv32, y: bv32, z: bv32, w: bv32)
  {
    w == Maj(x, y, z)
  }

  predicate MajAt(x: bv32, y: bv32, z: bv32, w: bv32, i: nat)
  {
    Bit(w, i) <==> (if Bit(x, i) then Bit(y, i) || Bit(z, i) else Bit(y, i) && Bit(z, i))
  }

  lemma MajLow(x: bv32, y: bv32, z: bv32, w: bv32)
    requires IsMaj(x, y, z, w)
    ensures MajAt(x, y, z, w, 0)
  {}

  lemma MajHalf(x: bv32, y: bv32, z: bv32, w: bv32, x': bv32, y': bv32, z': bv32, w': bv32)
    requires IsMaj(x, y, z, w) && IsHalf(x, x') && IsHalf(y, y') && IsHalf(z, z') && IsHalf(w, w')
    ensures IsMaj(x', y', z', w')
  {}

  lemma MajUp(x: bv32, y: bv32, z: bv32, w: bv32, x': bv32, y': bv32, z': bv32, w': bv32, i: nat)
    requires IsHalf(x, x') && IsHalf(y, y') && IsHalf(z, z') && IsHalf(w, w') && i > 0
    requires MajAt(x', y', z', w', i - 1)
    ensures MajAt(x, y, z, w, i)
  {}

  lemma {:induction false} MajWord(x: bv32, y: bv32, z: bv32, w: bv32, i: nat)
    requires IsMaj(x, y, z, w)
    ensures MajAt(x, y, z, w, i)
    decreases i
  {
    if i == 0 {
      MajLow(x, y, z, w);
    } else {
      var x' := Half(x);
      var y' := Half(y);
      var z' := Half(z);
      var w' := Half(w);
      MajHalf(x, y, z, w, x', y', z', w');
      MajWord(x', y', z', w', i - 1);
      MajUp(x, y, z, w, x', y', z', w', i);
    }
  }

  /** Maj has a one where two of its three words have. */
  lemma MajBit(x: bv32, y: bv32, z: bv32, i: nat)
    ensures Bit(Maj(x, y, z), i) <==> (if Bit(x, i) then Bit(y, i) || Bit(z, i) else Bit(y, i) && Bit(z, i))
  {
    MajWord(x, y, z, Maj(x, y, z), i);
  }

  // ---------- exclusive or ----------

  predicate IsXor(a: bv32, b: bv32, c: bv32)
  {
    c == a ^ b
  }

  lemma XorLow(a: bv32, b: bv32, c: bv32)
    requires IsXor(a, b, c)
    ensures Bit(c, 0) <==> Bit(a, 0) != Bit(b, 0)
  {}

  lemma XorHalf(a: bv32, b: bv32, c: bv32, a': bv32, b': bv32, c': bv32)
    requires IsXor(a, b, c) && IsHalf(a, a') && IsHalf(b, b') && IsHalf(c, c')
    ensures IsXor(a', b', c')
  {}

  lemma XorUp(a: bv32, b: bv32, c: bv32, a': bv32, b': bv32, c': bv32, i: nat)
    requires IsHalf(a, a') && IsHalf(b, b') && IsHalf(c, c') && i > 0
    requires Bit(c', i - 1) <==> Bit(a', i - 1) != Bit(b', i - 1)
    ensures Bit(c, i) <==> Bit(a, i) != Bit(b, i)
  {}

  lemma {:induction false} XorBit(a: bv32, b: bv32, c: bv32, i: nat)
    requires IsXor(a, b, c)
    ensures Bit(c, i) <==> Bit(a, i) != Bit(b, i)
    decreases i
  {
    if i == 0 {
      XorLow(a, b, c);
    } else {
      var a' := Half(a);
      var b' := Half(b);
      var c' := Half(c);
      XorHalf(a, b, c, a', b', c');
      XorBit(a', b', c', i - 1);
      XorUp(a, b, c, a', b', c', i);
    }
  }

  // ---------- shifting ----------

  function Shr(x: bv32, n: nat): bv32
    decreases n
  {
    if n == 0 then x else Shr(x >> 1, n - 1)
  }

  /** Moving down by n brings bit i + n to bit i. */
  lemma {:induction false} ShrBit(x: bv32, n: nat, i: nat)
    ensures Bit(Shr(x, n), i) == Bit(x, i + n)
    decreases n
  {
    if n == 0 {
    } else {
      ShrBit(x >> 1, n - 1, i);
    }
  }

  lemma {:induction false} ShrMore(x: bv32, n: nat, m: nat)
    ensures Shr(Shr(x, n), m) == Shr(x, n + m)
    decreases n
  {
    if n == 0 {
    } else {
      ShrMore(x >> 1, n - 1, m);
    }
  }

  lemma Shr3(x: bv32)
    ensures Shr(x, 3) == x >> 3
  {}

  lemma Shr10(x: bv32)
    ensures Shr(x, 10) == x >> 10
  {}

  lemma Shr20(x: bv32)
    ensures Shr(x, 20) == x >> 20
  {
    Shr10(x);
    Shr10(x >> 10);
    ShrMore(x, 10, 10);
  }

  lemma Shr31(x: bv32)
    ensures Shr(x, 31) == x >> 31
  {
    Shr20(x);
    Shr10(x >> 20);
    ShrMore(x, 20, 10);
    ShrMore(x, 30, 1);
  }

  lemma {:induction false} NoBit(i: nat)
    ensures !Bit(0, i)
    decreases i
  {
    if i == 0 {
    } else {
      NoBit(i - 1);
    }
  }

  /** There are no ones beyond bit 31. */
  lemma Beyond(x: bv32, i: nat)
    requires i >= 32
    ensures !Bit(x, i)
  {
    Shr31(x);
    ShrMore(x, 31, 1);
    ShrBit(x, 32, i - 32);
    NoBit(i - 32);
  }

  // ---------- turning ----------

  /** The lowest n bits are zero. */
  predicate Clean(t: bv32, n: nat)
    decreases n
  {
    n == 0 || (t & 1 == 0 && Clean(t >> 1, n - 1))
  }

  predicate IsOr(b: bv32, t: bv32, y: bv32)
  {
    y == b | t
  }

  lemma OrHalf(b: bv32, t: bv32, y: bv32, b': bv32, t': bv32, y': bv32)
    requires IsOr(b, t, y) && IsHalf(b, b') && IsHalf(t, t') && IsHalf(y, y')
    ensures IsOr(b', t', y')
  {}

  lemma OrLow(b: bv32, t: bv32, y: bv32)
    requires IsOr(b, t, y) && t & 1 == 0
    ensures Bit(y, 0) == Bit(b, 0)
  {}

  lemma CleanHalf(t: bv32, t': bv32, n: nat)
    requires Clean(t, n) && n > 0 && IsHalf(t, t')
    ensures Clean(t', n - 1) && t & 1 == 0
  {}

  lemma {:induction false} OrClean(b: bv32, t: bv32, y: bv32, n: nat, i: nat)
    requires IsOr(b, t, y) && Clean(t, n) && i < n
    ensures Bit(y, i) == Bit(b, i)
    decreases i
  {
    var b' := Half(b);
    var t' := Half(t);
    var y' := Half(y);
    CleanHalf(t, t', n);
    if i == 0 {
      OrLow(b, t, y);
    } else {
      OrHalf(b, t, y, b', t', y');
      HalfBit(b, b', i);
      HalfBit(y, y', i);
      OrClean(b', t', y', n - 1, i - 1);
    }
  }

  lemma CleanTop()
    ensures Clean(0, 31) && Clean(0x8000_0000, 31)
  {
    assert Clean(0x800, 11) && Clean(0, 11);
    assert Clean(0x20_0000, 21) && Clean(0, 21);
  }

  predicate IsTurn(x: bv32, y: bv32)
  {
    y == (x >> 1) | (x << 31)
  }

  lemma TopOnly(x: bv32)
    ensures x << 31 == 0 || x << 31 == 0x8000_0000
  {}

  lemma CleanLeft(x: bv32)
    ensures Clean(x << 31, 31)
  {
    TopOnly(x);
    CleanTop();
  }

  lemma TurnParts(x: bv32, y: bv32) returns (b: bv32, t: bv32)
    requires IsTurn(x, y)
    ensures IsHalf(x, b) && IsOr(b, t, y) && Clean(t, 31)
  {
    b, t := x >> 1, x << 31;
    CleanLeft(x);
  }

  lemma Bit31(y: bv32)
    ensures Bit(y, 31) == Bit(y >> 31, 0)
  {
    Shr31(y);
    ShrBit(y, 31, 0);
  }

  lemma TurnHigh(x: bv32, y: bv32)
    requires IsTurn(x, y)
    ensures (y >> 31) & 1 == x & 1
  {}

  lemma TurnTop(x: bv32, y: bv32)
    requires IsTurn(x, y)
    ensures Bit(y, 31) == Bit(x, 0)
  {
    TurnHigh(x, y);
    Bit31(y);
  }

  lemma TurnLow(x: bv32, y: bv32, b: bv32, t: bv32, i: nat)
    requires IsHalf(x, b) && IsOr(b, t, y) && Clean(t, 31) && i < 31
    ensures Bit(y, i) == Bit(x, i + 1)
  {
    OrClean(b, t, y, 31, i);
    HalfBit(x, b, i + 1);
  }

  lemma TurnBelow(x: bv32, y: bv32, i: nat)
    requires IsTurn(x, y) && i < 31
    ensures Bit(y, i) == Bit(x, i + 1)
  {
    var b, t := TurnParts(x, y);
    TurnLow(x, y, b, t, i);
  }

  /** One turn to the right brings every bit one down, and the lowest to the top. */
  lemma TurnBit(x: bv32, y: bv32, i: nat)
    requires IsTurn(x, y) && i < 32
    ensures Bit(y, i) == if i == 31 then Bit(x, 0) else Bit(x, i + 1)
  {
    if i == 31 {
      TurnTop(x, y);
    } else {
      TurnBelow(x, y, i);
    }
  }

  function Right(x: bv32): (y: bv32)
    ensures IsTurn(x, y)
  {
    (x >> 1) | (x << 31)
  }

  function Rotr(x: bv32, n: nat): bv32
    decreases n
  {
    if n == 0 then x else Right(Rotr(x, n - 1))
  }

  lemma {:induction false} RotrBit(x: bv32, n: nat, i: nat)
    requires i < 32
    ensures Bit(Rotr(x, n), i) == Bit(x, (i + n) % 32)
    decreases n
  {
    if n == 0 {
    } else {
      TurnBit(Rotr(x, n - 1), Rotr(x, n), i);
      RotrBit(x, n - 1, (i + 1) % 32);
      ModTwice(i + 1, n - 1);
    }
  }

  lemma ModTwice(a: nat, b: nat)
    ensures (a % 32 + b) % 32 == (a + b) % 32
  {}

  lemma Rotr2(x: bv32)
    ensures Rotr(x, 2) == (x >> 2) | (x << 30)
  {}

  lemma Turned2(x: bv32, i: nat)
    requires i < 32
    ensures Bit((x >> 2) | (x << 30), i) == Bit(x, (i + 2) % 32)
  {
    Rotr2(x);
    RotrBit(x, 2, i);
  }

  lemma Rotr6(x: bv32)
    ensures Rotr(x, 6) == (x >> 6) | (x << 26)
  {}

  lemma Turned6(x: bv32, i: nat)
    requires i < 32
    ensures Bit((x >> 6) | (x << 26), i) == Bit(x, (i + 6) % 32)
  {
    Rotr6(x);
    RotrBit(x, 6, i);
  }

  lemma Rotr7(x: bv32)
    ensures Rotr(x, 7) == (x >> 7) | (x << 25)
  {}

  lemma Turned7(x: bv32, i: nat)
    requires i < 32
    ensures Bit((x >> 7) | (x << 25), i) == Bit(x, (i + 7) % 32)
  {
    Rotr7(x);
    RotrBit(x, 7, i);
  }

  lemma Rotr11(x: bv32)
    ensures Rotr(x, 11) == (x >> 11) | (x << 21)
  {}

  lemma Turned11(x: bv32, i: nat)
    requires i < 32
    ensures Bit((x >> 11) | (x << 21), i) == Bit(x, (i + 11) % 32)
  {
    Rotr11(x);
    RotrBit(x, 11, i);
  }

  lemma Rotr13(x: bv32)
    ensures Rotr(x, 13) == (x >> 13) | (x << 19)
  {}

  lemma Turned13(x: bv32, i: nat)
    requires i < 32
    ensures Bit((x >> 13) | (x << 19), i) == Bit(x, (i + 13) % 32)
  {
    Rotr13(x);
    RotrBit(x, 13, i);
  }

  lemma Rotr15(x: bv32)
    ensures Rotr(x, 15) == (x >> 15) | (x << 17)
  {
    Rotr13(x);
  }

  lemma Rotr17(x: bv32)
    ensures Rotr(x, 17) == (x >> 17) | (x << 15)
  {
    Rotr15(x);
  }

  lemma Turned17(x: bv32, i: nat)
    requires i < 32
    ensures Bit((x >> 17) | (x << 15), i) == Bit(x, (i + 17) % 32)
  {
    Rotr17(x);
    RotrBit(x, 17, i);
  }

  lemma Rotr18(x: bv32)
    ensures Rotr(x, 18) == (x >> 18) | (x << 14)
  {
    Rotr17(x);
  }

  lemma Turned18(x: bv32, i: nat)
    requires i < 32
    ensures Bit((x >> 18) | (x << 14), i) == Bit(x, (i + 18) % 32)
  {
    Rotr18(x);
    RotrBit(x, 18, i);
  }

  lemma Rotr19(x: bv32)
    ensures Rotr(x, 19) == (x >> 19) | (x << 13)
  {
    Rotr18(x);
  }

  lemma Turned19(x: bv32, i: nat)
    requires i < 32
    ensures Bit((x >> 19) | (x << 13), i) == Bit(x, (i + 19) % 32)
  {
    Rotr19(x);
    RotrBit(x, 19, i);
  }

  lemma Rotr22(x: bv32)
    ensures Rotr(x, 22) == (x >> 22) | (x << 10)
  {
    Rotr19(x);
  }

  lemma Turned22(x: bv32, i: nat)
    requires i < 32
    ensures Bit((x >> 22) | (x << 10), i) == Bit(x, (i + 22) % 32)
  {
    Rotr22(x);
    RotrBit(x, 22, i);
  }

  lemma Rotr25(x: bv32)
    ensures Rotr(x, 25) == (x >> 25) | (x << 7)
  {
    Rotr22(x);
  }

  lemma Turned25(x: bv32, i: nat)
    requires i < 32
    ensures Bit((x >> 25) | (x << 7), i) == Bit(x, (i + 25) % 32)
  {
    Rotr25(x);
    RotrBit(x, 25, i);
  }

  lemma Moved3(x: bv32, i: nat)
    ensures Bit(x >> 3, i) == Bit(x, i + 3)
  {
    Shr3(x);
    ShrBit(x, 3, i);
  }

  lemma Moved10(x: bv32, i: nat)
    ensures Bit(x >> 10, i) == Bit(x, i + 10)
  {
    Shr10(x);
    ShrBit(x, 10, i);
  }

  // ---------- the four sigmas ----------

  function Xor3(a: bv32, b: bv32, c: bv32): bv32
  {
    a ^ b ^ c
  }

  lemma Xor3Bit(a: bv32, b: bv32, c: bv32, i: nat)
    ensures Bit(Xor3(a, b, c), i) <==> (Bit(a, i) != Bit(b, i)) != Bit(c, i)
  {
    var d, y := a ^ b, Xor3(a, b, c);
    XorBit(a, b, d, i);
    XorBit(d, c, y, i);
  }

  lemma BigSigma0Parts(x: bv32)
    ensures BigSigma0(x) == Xor3((x >> 2) | (x << 30), (x >> 13) | (x << 19), (x >> 22) | (x << 10))
  {}

  /** The first sum: turned by 2, 13 and 22. */
  lemma BigSigma0Bit(x: bv32, i: nat)
    requires i < 32
    ensures Bit(BigSigma0(x), i) <==> (Bit(x, (i + 2) % 32) != Bit(x, (i + 13) % 32)) != Bit(x, (i + 22) % 32)
  {
    BigSigma0Parts(x);
    Xor3Bit((x >> 2) | (x << 30), (x >> 13) | (x << 19), (x >> 22) | (x << 10), i);
    Turned2(x, i);
    Turned13(x, i);
    Turned22(x, i);
  }

  lemma BigSigma1Parts(x: bv32)
    ensures BigSigma1(x) == Xor3((x >> 6) | (x << 26), (x >> 11) | (x << 21), (x >> 25) | (x << 7))
  {}

  /** The second: turned by 6, 11 and 25. */
  lemma BigSigma1Bit(x: bv32, i: nat)
    requires i < 32
    ensures Bit(BigSigma1(x), i) <==> (Bit(x, (i + 6) % 32) != Bit(x, (i + 11) % 32)) != Bit(x, (i + 25) % 32)
  {
    BigSigma1Parts(x);
    Xor3Bit((x >> 6) | (x << 26), (x >> 11) | (x << 21), (x >> 25) | (x << 7), i);
    Turned6(x, i);
    Turned11(x, i);
    Turned25(x, i);
  }

  lemma SmallSigma0Parts(x: bv32)
    ensures SmallSigma0(x) == Xor3((x >> 7) | (x << 25), (x >> 18) | (x << 14), x >> 3)
  {}

  /** In the schedule: turned by 7 and 18, and shifted by 3. */
  lemma SmallSigma0Bit(x: bv32, i: nat)
    requires i < 32
    ensures Bit(SmallSigma0(x), i) <==> (Bit(x, (i + 7) % 32) != Bit(x, (i + 18) % 32)) != Bit(x, i + 3)
  {
    SmallSigma0Parts(x);
    Xor3Bit((x >> 7) | (x << 25), (x >> 18) | (x << 14), x >> 3, i);
    Turned7(x, i);
    Turned18(x, i);
    Moved3(x, i);
  }

  lemma SmallSigma1Parts(x: bv32)
    ensures SmallSigma1(x) == Xor3((x >> 17) | (x << 15), (x >> 19) | (x << 13), x >> 10)
  {}

  /** And turned by 17 and 19, and shifted by 10. */
  lemma SmallSigma1Bit(x: bv32, i: nat)
    requires i < 32
    ensures Bit(SmallSigma1(x), i) <==> (Bit(x, (i + 17) % 32) != Bit(x, (i + 19) % 32)) != Bit(x, i + 10)
  {
    SmallSigma1Parts(x);
    Xor3Bit((x >> 17) | (x << 15), (x >> 19) | (x << 13), x >> 10, i);
    Turned17(x, i);
    Turned19(x, i);
    Moved10(x, i);
  }

  // ---------- bytes and words ----------

  /** The bytes of a word are its digits to base 256, the first the most significant. */
  lemma ByteDigits(w: bv32)
    ensures w == 0x100_0000 * (ByteOf(w, 0) as bv32) + 0x1_0000 * (ByteOf(w, 1) as bv32)
                 + 0x100 * (ByteOf(w, 2) as bv32) + (ByteOf(w, 3) as bv32)
  {}

  /** And a word of the block has its four bytes for digits. */
  lemma WordDigits(block: seq<Byte>, i: nat)
    requires i < 16 && |block| == 64
    ensures WordAt(block, i) == 0x100_0000 * (block[4 * i] as bv32) + 0x1_0000 * (block[4 * i + 1] as bv32)
                                + 0x100 * (block[4 * i + 2] as bv32) + (block[4 * i + 3] as bv32)
  {}

  function Power(i: nat): nat
  {
    if i == 0 then 1 else 256 * Power(i - 1)
  }

  /** The length field holds the eight lowest digits of the length to base 256, the last the lowest. */
  lemma LengthDigits(n: nat, i: nat)
    requires i < 8
    ensures Power(i) > 0 && Length64(n)[7 - i] == Low(n / Power(i))
  {
    assert Power(1) == 0x100 && Power(2) == 0x1_0000 && Power(3) == 0x100_0000 && Power(4) == 0x1_0000_0000;
    assert Power(5) == 0x100_0000_0000 && Power(6) == 0x1_0000_0000_0000 && Power(7) == 0x100_0000_0000_0000;
  }
}
