/** The constants of SHA-256 are what sections 4.2.2 and 5.3.3 of FIPS 180-4 say they are: the
first 32 bits of the fractional parts of roots of the numbers listed here, which the standard takes
to be the first primes. */
module Sha256Constants {
  import opened Sha256Spec

  const P0: seq<nat> := [2, 3, 5, 7, 11, 13, 17, 19]
  const P1: seq<nat> := [23, 29, 31, 37, 41, 43, 47, 53]
  const P2: seq<nat> := [59, 61, 67, 71, 73, 79, 83, 89]
  const P3: seq<nat> := [97, 101, 103, 107, 109, 113, 127, 131]
  const P4: seq<nat> := [137, 139, 149, 151, 157, 163, 167, 173]
  const P5: seq<nat> := [179, 181, 191, 193, 197, 199, 211, 223]
  const P6: seq<nat> := [227, 229, 233, 239, 241, 251, 257, 263]
  const P7: seq<nat> := [269, 271, 277, 281, 283, 293, 307, 311]

  /** k is the first 32 bits of the fraction of the square root of p, whose integer part is r. */
  ghost predicate SquareBits(p: nat, r: nat, k: nat)
  {
    var x := r * 0x1_0000_0000 + k;
    k < 0x1_0000_0000 && x * x <= p * 0x1_0000_0000_0000_0000 < (x + 1) * (x + 1)
  }

  /** The same for the cube root. */
  ghost predicate CubeBits(p: nat, r: nat, k: nat)
  {
    var x := r * 0x1_0000_0000 + k;
    k < 0x1_0000_0000 && x * x * x <= p * 0x1_0000_0000_0000_0000_0000_0000 < (x + 1) * (x + 1) * (x + 1)
  }

  /** Eight primes, the integer parts of their cube roots, and the constants. */
  ghost predicate CubeRow(ps: seq<nat>, rs: seq<nat>, ks: seq<bv32>)
  {
    |ps| == |rs| == |ks| == 8 && forall j | 0 <= j < 8 :: CubeBits(ps[j], rs[j], ks[j] as nat)
  }

  /** The initial hash value of section 5.3.3. */
  lemma InitialHash()
    ensures SquareBits(2, 1, H0.a as nat) && SquareBits(3, 1, H0.b as nat) && SquareBits(5, 2, H0.c as nat)
    ensures SquareBits(7, 2, H0.d as nat) && SquareBits(11, 3, H0.e as nat) && SquareBits(13, 3, H0.f as nat)
    ensures SquareBits(17, 4, H0.g as nat) && SquareBits(19, 4, H0.h as nat)
  {}

  lemma Row0()
    ensures CubeRow(P0, [1, 1, 1, 1, 2, 2, 2, 2], K0)
  {
    assert CubeBits(P0[0], 1, K0[0] as nat);
    assert CubeBits(P0[1], 1, K0[1] as nat);
    assert CubeBits(P0[2], 1, K0[2] as nat);
    assert CubeBits(P0[3], 1, K0[3] as nat);
    assert CubeBits(P0[4], 2, K0[4] as nat);
    assert CubeBits(P0[5], 2, K0[5] as nat);
    assert CubeBits(P0[6], 2, K0[6] as nat);
    assert CubeBits(P0[7], 2, K0[7] as nat);
  }

  lemma Row1()
    ensures CubeRow(P1, [2, 3, 3, 3, 3, 3, 3, 3], K1)
  {
    assert CubeBits(P1[0], 2, K1[0] as nat);
    assert CubeBits(P1[1], 3, K1[1] as nat);
    assert CubeBits(P1[2], 3, K1[2] as nat);
    assert CubeBits(P1[3], 3, K1[3] as nat);
    assert CubeBits(P1[4], 3, K1[4] as nat);
    assert CubeBits(P1[5], 3, K1[5] as nat);
    assert CubeBits(P1[6], 3, K1[6] as nat);
    assert CubeBits(P1[7], 3, K1[7] as nat);
  }

  lemma Row2()
    ensures CubeRow(P2, [3, 3, 4, 4, 4, 4, 4, 4], K2)
  {
    assert CubeBits(P2[0], 3, K2[0] as nat);
    assert CubeBits(P2[1], 3, K2[1] as nat);
    assert CubeBits(P2[2], 4, K2[2] as nat);
    assert CubeBits(P2[3], 4, K2[3] as nat);
    assert CubeBits(P2[4], 4, K2[4] as nat);
    assert CubeBits(P2[5], 4, K2[5] as nat);
    assert CubeBits(P2[6], 4, K2[6] as nat);
    assert CubeBits(P2[7], 4, K2[7] as nat);
  }

  lemma Row3()
    ensures CubeRow(P3, [4, 4, 4, 4, 4, 4, 5, 5], K3)
  {
    assert CubeBits(P3[0], 4, K3[0] as nat);
    assert CubeBits(P3[1], 4, K3[1] as nat);
    assert CubeBits(P3[2], 4, K3[2] as nat);
    assert CubeBits(P3[3], 4, K3[3] as nat);
    assert CubeBits(P3[4], 4, K3[4] as nat);
    assert CubeBits(P3[5], 4, K3[5] as nat);
    assert CubeBits(P3[6], 5, K3[6] as nat);
    assert CubeBits(P3[7], 5, K3[7] as nat);
  }

  lemma Row4()
    ensures CubeRow(P4, [5, 5, 5, 5, 5, 5, 5, 5], K4)
  {
    assert CubeBits(P4[0], 5, K4[0] as nat);
    assert CubeBits(P4[1], 5, K4[1] as nat);
    assert CubeBits(P4[2], 5, K4[2] as nat);
    assert CubeBits(P4[3], 5, K4[3] as nat);
    assert CubeBits(P4[4], 5, K4[4] as nat);
    assert CubeBits(P4[5], 5, K4[5] as nat);
    assert CubeBits(P4[6], 5, K4[6] as nat);
    assert CubeBits(P4[7], 5, K4[7] as nat);
  }

  lemma Row5()
    ensures CubeRow(P5, [5, 5, 5, 5, 5, 5, 5, 6], K5)
  {
    assert CubeBits(P5[0], 5, K5[0] as nat);
    assert CubeBits(P5[1], 5, K5[1] as nat);
    assert CubeBits(P5[2], 5, K5[2] as nat);
    assert CubeBits(P5[3], 5, K5[3] as nat);
    assert CubeBits(P5[4], 5, K5[4] as nat);
    assert CubeBits(P5[5], 5, K5[5] as nat);
    assert CubeBits(P5[6], 5, K5[6] as nat);
    assert CubeBits(P5[7], 6, K5[7] as nat);
  }

  lemma Row6()
    ensures CubeRow(P6, [6, 6, 6, 6, 6, 6, 6, 6], K6)
  {
    assert CubeBits(P6[0], 6, K6[0] as nat);
    assert CubeBits(P6[1], 6, K6[1] as nat);
    assert CubeBits(P6[2], 6, K6[2] as nat);
    assert CubeBits(P6[3], 6, K6[3] as nat);
    assert CubeBits(P6[4], 6, K6[4] as nat);
    assert CubeBits(P6[5], 6, K6[5] as nat);
    assert CubeBits(P6[6], 6, K6[6] as nat);
    assert CubeBits(P6[7], 6, K6[7] as nat);
  }

  lemma Row7()
    ensures CubeRow(P7, [6, 6, 6, 6, 6, 6, 6, 6], K7)
  {
    assert CubeBits(P7[0], 6, K7[0] as nat);
    assert CubeBits(P7[1], 6, K7[1] as nat);
    assert CubeBits(P7[2], 6, K7[2] as nat);
    assert CubeBits(P7[3], 6, K7[3] as nat);
    assert CubeBits(P7[4], 6, K7[4] as nat);
    assert CubeBits(P7[5], 6, K7[5] as nat);
    assert CubeBits(P7[6], 6, K7[6] as nat);
    assert CubeBits(P7[7], 6, K7[7] as nat);
  }

  /** The round constants of section 4.2.2. */
  lemma RoundConstants()
    ensures K == K0 + K1 + K2 + K3 + K4 + K5 + K6 + K7 && |K| == 64
    ensures CubeRow(P0, [1, 1, 1, 1, 2, 2, 2, 2], K0)
           && CubeRow(P1, [2, 3, 3, 3, 3, 3, 3, 3], K1)
           && CubeRow(P2, [3, 3, 4, 4, 4, 4, 4, 4], K2)
           && CubeRow(P3, [4, 4, 4, 4, 4, 4, 5, 5], K3)
    ensures CubeRow(P4, [5, 5, 5, 5, 5, 5, 5, 5], K4)
           && CubeRow(P5, [5, 5, 5, 5, 5, 5, 5, 6], K5)
           && CubeRow(P6, [6, 6, 6, 6, 6, 6, 6, 6], K6)
           && CubeRow(P7, [6, 6, 6, 6, 6, 6, 6, 6], K7)
  {
    Row0();
    Row1();
    Row2();
    Row3();
    Row4();
    Row5();
    Row6();
    Row7();
  }
}
