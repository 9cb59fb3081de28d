/** The example of FIPS 180-4 for one block: the digest of the three characters "abc". */
module Sha256Answer {
  import opened Sha256Spec

  const ABC: seq<Byte> := [0x61, 0x62, 0x63]

  const ANSWER: seq<Byte> :=
    [0xba, 0x78, 0x16, 0xbf, 0x8f, 0x01, 0xcf, 0xea, 0x41, 0x41, 0x40, 0xde, 0x5d, 0xae, 0x22, 0x23,
     0xb0, 0x03, 0x61, 0xa3, 0x96, 0x17, 0x7a, 0x9c, 0xb4, 0x10, 0xff, 0x61, 0xf2, 0x00, 0x15, 0xad]

  /** The message, a one bit and its length fill one block. */
  ghost predicate IsBlock(b: seq<Byte>)
  {
    && |b| == 64
    && b[0] == 0x61 && b[1] == 0x62 && b[2] == 0x63 && b[3] == 0x80
    && (forall i | 4 <= i < 63 :: b[i] == 0)
    && b[63] == 24
  }

  lemma Padded(b: seq<Byte>)
    requires b == Pad(ABC)
    ensures IsBlock(b)
  {
    GapIs(3, 3);
    LengthBytes();
    assert b == ABC + [0x80] + Zeros(52) + Length64(24);
  }

  lemma LengthBytes()
    ensures Length64(24) == [0, 0, 0, 0, 0, 0, 0, 24]
  {
    LowBytes();
    assert 24 / 0x100 == 0 && 24 / 0x1_0000 == 0 && 24 / 0x100_0000 == 0 && 24 / 0x1_0000_0000 == 0;
    assert 24 / 0x100_0000_0000 == 0 && 24 / 0x1_0000_0000_0000 == 0 && 24 / 0x100_0000_0000_0000 == 0;
  }

  lemma LowBytes()
    ensures Low(0) == 0 && Low(24) == 24
  {}

  // ---------- the schedule ----------

  predicate Words0(b: seq<Byte>)
    requires |b| == 64
  {
    && Schedule(b, 0) == 0x61626380
    && Schedule(b, 1) == 0x00000000
    && Schedule(b, 2) == 0x00000000
    && Schedule(b, 3) == 0x00000000
    && Schedule(b, 4) == 0x00000000
    && Schedule(b, 5) == 0x00000000
    && Schedule(b, 6) == 0x00000000
    && Schedule(b, 7) == 0x00000000
  }

  lemma Schedule0(b: seq<Byte>)
    requires IsBlock(b)
    ensures Words0(b)
  {}

  predicate Words1(b: seq<Byte>)
    requires |b| == 64
  {
    && Schedule(b, 8) == 0x00000000
    && Schedule(b, 9) == 0x00000000
    && Schedule(b, 10) == 0x00000000
    && Schedule(b, 11) == 0x00000000
    && Schedule(b, 12) == 0x00000000
    && Schedule(b, 13) == 0x00000000
    && Schedule(b, 14) == 0x00000000
    && Schedule(b, 15) == 0x00000018
  }

  lemma Schedule1(b: seq<Byte>)
    requires IsBlock(b)
    ensures Words1(b)
  {}

  predicate Words2(b: seq<Byte>)
    requires |b| == 64
  {
    && Schedule(b, 16) == 0x61626380
    && Schedule(b, 17) == 0x000f0000
    && Schedule(b, 18) == 0x7da86405
    && Schedule(b, 19) == 0x600003c6
    && Schedule(b, 20) == 0x3e9d7b78
    && Schedule(b, 21) == 0x0183fc00
    && Schedule(b, 22) == 0x12dcbfdb
    && Schedule(b, 23) == 0xe2e2c38e
  }

  lemma Schedule2(b: seq<Byte>)
    requires |b| == 64 && Words0(b) && Words1(b)
    ensures Words2(b)
  {
    Mix2();
  }

  lemma Mix2()
    ensures Mix(0x00000000, 0x00000000, 0x00000000, 0x61626380) == 0x61626380
    ensures Mix(0x00000018, 0x00000000, 0x00000000, 0x00000000) == 0x000f0000
    ensures Mix(0x61626380, 0x00000000, 0x00000000, 0x00000000) == 0x7da86405
    ensures Mix(0x000f0000, 0x00000000, 0x00000000, 0x00000000) == 0x600003c6
    ensures Mix(0x7da86405, 0x00000000, 0x00000000, 0x00000000) == 0x3e9d7b78
    ensures Mix(0x600003c6, 0x00000000, 0x00000000, 0x00000000) == 0x0183fc00
    ensures Mix(0x3e9d7b78, 0x00000018, 0x00000000, 0x00000000) == 0x12dcbfdb
    ensures Mix(0x0183fc00, 0x61626380, 0x00000000, 0x00000000) == 0xe2e2c38e
  {}

  predicate Words3(b: seq<Byte>)
    requires |b| == 64
  {
    && Schedule(b, 24) == 0xc8215c1a
    && Schedule(b, 25) == 0xb73679a2
    && Schedule(b, 26) == 0xe5bc3909
    && Schedule(b, 27) == 0x32663c5b
    && Schedule(b, 28) == 0x9d209d67
    && Schedule(b, 29) == 0xec8726cb
    && Schedule(b, 30) == 0x702138a4
    && Schedule(b, 31) == 0xd3b7973b
  }

  lemma Schedule3(b: seq<Byte>)
    requires |b| == 64 && Words1(b) && Words2(b)
    ensures Words3(b)
  {
    Mix3();
  }

  lemma Mix3()
    ensures Mix(0x12dcbfdb, 0x000f0000, 0x00000000, 0x00000000) == 0xc8215c1a
    ensures Mix(0xe2e2c38e, 0x7da86405, 0x00000000, 0x00000000) == 0xb73679a2
    ensures Mix(0xc8215c1a, 0x600003c6, 0x00000000, 0x00000000) == 0xe5bc3909
    ensures Mix(0xb73679a2, 0x3e9d7b78, 0x00000000, 0x00000000) == 0x32663c5b
    ensures Mix(0xe5bc3909, 0x0183fc00, 0x00000000, 0x00000000) == 0x9d209d67
    ensures Mix(0x32663c5b, 0x12dcbfdb, 0x00000000, 0x00000000) == 0xec8726cb
    ensures Mix(0x9d209d67, 0xe2e2c38e, 0x00000018, 0x00000000) == 0x702138a4
    ensures Mix(0xec8726cb, 0xc8215c1a, 0x61626380, 0x00000018) == 0xd3b7973b
  {}

  predicate Words4(b: seq<Byte>)
    requires |b| == 64
  {
    && Schedule(b, 32) == 0x93f5997f
    && Schedule(b, 33) == 0x3b68ba73
    && Schedule(b, 34) == 0xaff4ffc1
    && Schedule(b, 35) == 0xf10a5c62
    && Schedule(b, 36) == 0x0a8b3996
    && Schedule(b, 37) == 0x72af830a
    && Schedule(b, 38) == 0x9409e33e
    && Schedule(b, 39) == 0x24641522
  }

  lemma Schedule4(b: seq<Byte>)
    requires |b| == 64 && Words2(b) && Words3(b)
    ensures Words4(b)
  {
    Mix4();
  }

  lemma Mix4()
    ensures Mix(0x702138a4, 0xb73679a2, 0x000f0000, 0x61626380) == 0x93f5997f
    ensures Mix(0xd3b7973b, 0xe5bc3909, 0x7da86405, 0x000f0000) == 0x3b68ba73
    ensures Mix(0x93f5997f, 0x32663c5b, 0x600003c6, 0x7da86405) == 0xaff4ffc1
    ensures Mix(0x3b68ba73, 0x9d209d67, 0x3e9d7b78, 0x600003c6) == 0xf10a5c62
    ensures Mix(0xaff4ffc1, 0xec8726cb, 0x0183fc00, 0x3e9d7b78) == 0x0a8b3996
    ensures Mix(0xf10a5c62, 0x702138a4, 0x12dcbfdb, 0x0183fc00) == 0x72af830a
    ensures Mix(0x0a8b3996, 0xd3b7973b, 0xe2e2c38e, 0x12dcbfdb) == 0x9409e33e
    ensures Mix(0x72af830a, 0x93f5997f, 0xc8215c1a, 0xe2e2c38e) == 0x24641522
  {}

  predicate Words5(b: seq<Byte>)
    requires |b| == 64
  {
    && Schedule(b, 40) == 0x9f47bf94
    && Schedule(b, 41) == 0xf0a64f5a
    && Schedule(b, 42) == 0x3e246a79
    && Schedule(b, 43) == 0x27333ba3
    && Schedule(b, 44) == 0x0c4763f2
    && Schedule(b, 45) == 0x840abf27
    && Schedule(b, 46) == 0x7a290d5d
    && Schedule(b, 47) == 0x065c43da
  }

  lemma Schedule5(b: seq<Byte>)
    requires |b| == 64 && Words3(b) && Words4(b)
    ensures Words5(b)
  {
    Mix5();
  }

  lemma Mix5()
    ensures Mix(0x9409e33e, 0x3b68ba73, 0xb73679a2, 0xc8215c1a) == 0x9f47bf94
    ensures Mix(0x24641522, 0xaff4ffc1, 0xe5bc3909, 0xb73679a2) == 0xf0a64f5a
    ensures Mix(0x9f47bf94, 0xf10a5c62, 0x32663c5b, 0xe5bc3909) == 0x3e246a79
    ensures Mix(0xf0a64f5a, 0x0a8b3996, 0x9d209d67, 0x32663c5b) == 0x27333ba3
    ensures Mix(0x3e246a79, 0x72af830a, 0xec8726cb, 0x9d209d67) == 0x0c4763f2
    ensures Mix(0x27333ba3, 0x9409e33e, 0x702138a4, 0xec8726cb) == 0x840abf27
    ensures Mix(0x0c4763f2, 0x24641522, 0xd3b7973b, 0x702138a4) == 0x7a290d5d
    ensures Mix(0x840abf27, 0x9f47bf94, 0x93f5997f, 0xd3b7973b) == 0x065c43da
  {}

  predicate Words6(b: seq<Byte>)
    requires |b| == 64
  {
    && Schedule(b, 48) == 0xfb3e89cb
    && Schedule(b, 49) == 0xcc7617db
    && Schedule(b, 50) == 0xb9e66c34
    && Schedule(b, 51) == 0xa9993667
    && Schedule(b, 52) == 0x84badedd
    && Schedule(b, 53) == 0xc21462bc
    && Schedule(b, 54) == 0x1487472c
    && Schedule(b, 55) == 0xb20f7a99
  }

  lemma Schedule6(b: seq<Byte>)
    requires |b| == 64 && Words4(b) && Words5(b)
    ensures Words6(b)
  {
    Mix6();
  }

  lemma Mix6()
    ensures Mix(0x7a290d5d, 0xf0a64f5a, 0x3b68ba73, 0x93f5997f) == 0xfb3e89cb
    ensures Mix(0x065c43da, 0x3e246a79, 0xaff4ffc1, 0x3b68ba73) == 0xcc7617db
    ensures Mix(0xfb3e89cb, 0x27333ba3, 0xf10a5c62, 0xaff4ffc1) == 0xb9e66c34
    ensures Mix(0xcc7617db, 0x0c4763f2, 0x0a8b3996, 0xf10a5c62) == 0xa9993667
    ensures Mix(0xb9e66c34, 0x840abf27, 0x72af830a, 0x0a8b3996) == 0x84badedd
    ensures Mix(0xa9993667, 0x7a290d5d, 0x9409e33e, 0x72af830a) == 0xc21462bc
    ensures Mix(0x84badedd, 0x065c43da, 0x24641522, 0x9409e33e) == 0x1487472c
    ensures Mix(0xc21462bc, 0xfb3e89cb, 0x9f47bf94, 0x24641522) == 0xb20f7a99
  {}

  predicate Words7(b: seq<Byte>)
    requires |b| == 64
  {
    && Schedule(b, 56) == 0xef57b9cd
    && Schedule(b, 57) == 0xebe6b238
    && Schedule(b, 58) == 0x9fe3095e
    && Schedule(b, 59) == 0x78bc8d4b
    && Schedule(b, 60) == 0xa43fcf15
    && Schedule(b, 61) == 0x668b2ff8
    && Schedule(b, 62) == 0xeeaba2cc
    && Schedule(b, 63) == 0x12b1edeb
  }

  lemma Schedule7(b: seq<Byte>)
    requires |b| == 64 && Words5(b) && Words6(b)
    ensures Words7(b)
  {
    Mix7();
  }

  lemma Mix7()
    ensures Mix(0x1487472c, 0xcc7617db, 0xf0a64f5a, 0x9f47bf94) == 0xef57b9cd
    ensures Mix(0xb20f7a99, 0xb9e66c34, 0x3e246a79, 0xf0a64f5a) == 0xebe6b238
    ensures Mix(0xef57b9cd, 0xa9993667, 0x27333ba3, 0x3e246a79) == 0x9fe3095e
    ensures Mix(0xebe6b238, 0x84badedd, 0x0c4763f2, 0x27333ba3) == 0x78bc8d4b
    ensures Mix(0x9fe3095e, 0xc21462bc, 0x840abf27, 0x0c4763f2) == 0xa43fcf15
    ensures Mix(0x78bc8d4b, 0x1487472c, 0x7a290d5d, 0x840abf27) == 0x668b2ff8
    ensures Mix(0xa43fcf15, 0xb20f7a99, 0x065c43da, 0x7a290d5d) == 0xeeaba2cc
    ensures Mix(0x668b2ff8, 0xef57b9cd, 0xfb3e89cb, 0x065c43da) == 0x12b1edeb
  {}

  // ---------- the rounds ----------

  // The working variables after every fourth round.
  const V4 := Hash(0xd550f666, 0xc8c347a7, 0x5a6ad9ad, 0x5d6aebcd, 0x24e00850, 0xf92939eb, 0x78ce7989, 0xfa2a4622)
  const V8 := Hash(0x85a07b5f, 0xe5030380, 0x2b4209f5, 0x04409a6a, 0x0c657a79, 0x9b27a401, 0x714260ad, 0x43ada245)
  const V12 := Hash(0xf71fc5a9, 0x4798a3f4, 0x8c87346b, 0x8e04ecb9, 0x816fd6e9, 0x436b23e8, 0x1cc92596, 0x32ca2d8c)
  const V16 := Hash(0xb0fa238e, 0xc0645fde, 0xd932eb16, 0x87912990, 0x07590dcd, 0x0b92f20c, 0x745a48de, 0x1e578218)
  const V20 := Hash(0xe1f20c33, 0xfe777bbf, 0xc2fbd9d1, 0x21da9a9b, 0xb0638179, 0xcc899961, 0x846ee454, 0x8034229c)
  const V24 := Hash(0xc5d53d8d, 0xa7a3623f, 0xc2606d6d, 0x9dc68b63, 0xaa47c347, 0x49f5114a, 0xe1257970, 0x8ada8930)
  const V28 := Hash(0x77d37528, 0xb62ec4bc, 0xcde8037d, 0x1c2c2838, 0xedffbff8, 0xc74c6516, 0x14383d8e, 0x2823ef91)
  const V32 := Hash(0x73b33bf5, 0xea992a22, 0xa0060b30, 0x363482c9, 0xba591112, 0x0109ab3a, 0xade79437, 0x6112a3b7)
  const V36 := Hash(0x65a0cfe4, 0xa9a7738c, 0xfe604df5, 0x98e12507, 0xf4b002d6, 0x085f3833, 0x59249dd3, 0x9cd9f5f6)
  const V40 := Hash(0x79ea687a, 0x6dc57a8a, 0x34df1604, 0x41a65cb1, 0x1efbc0a0, 0xf0781bc8, 0xa507a53d, 0x0772a26b)
  const V44 := Hash(0x9d4baf93, 0x17aa0dfe, 0xdf46652f, 0xd6670766, 0xfda24c2e, 0xdecd4715, 0x838b2711, 0x26352d63)
  const V48 := Hash(0x4172328d, 0xa14c14b0, 0x72ab4b91, 0x26628815, 0xfecf0bc6, 0xd57b94a9, 0xb7755da1, 0xa80f11f0)
  const V52 := Hash(0x886e7a22, 0x7a0508a1, 0xf11bfaa8, 0x05757ceb, 0x49231c1e, 0x52f1ccf7, 0x6e5c390c, 0xbd714038)
  const V56 := Hash(0x38cc9913, 0x3ec45cdb, 0xf5702fdb, 0x101fd28f, 0x54cb266b, 0xe50e1b4f, 0x9f4787c3, 0x529e7d00)
  const V60 := Hash(0xb6ae8fff, 0xffb70472, 0xc062d46f, 0xfcd1887b, 0xb21bad3d, 0x6d83bfc6, 0x7e44008e, 0x9b5e906c)
  const V64 := Hash(0x506e3058, 0xd39a2165, 0x04d24d6c, 0xb85e2ce9, 0x5ef50f24, 0xfb121210, 0x948d25b6, 0x961f4894)

  lemma Constants0()
    ensures K[0..8] == K0
  {}

  lemma Constants1()
    ensures K[8..16] == K1
  {}

  lemma Constants2()
    ensures K[16..24] == K2
  {}

  lemma Constants3()
    ensures K[24..32] == K3
  {}

  lemma Constants4()
    ensures K[32..40] == K4
  {}

  lemma Constants5()
    ensures K[40..48] == K5
  {}

  lemma Constants6()
    ensures K[48..56] == K6
  {}

  lemma Constants7()
    ensures K[56..64] == K7
  {}

  lemma Rounds0(b: seq<Byte>)
    requires |b| == 64 && Words0(b)
    ensures Rounds(K, H0, b, 4) == V4
  {
    Constants0();
    assert K[0] == K[0..8][0];
    assert Rounds(K, H0, b, 1)
           == Hash(0x5d6aebcd, 0x6a09e667, 0xbb67ae85, 0x3c6ef372, 0xfa2a4622, 0x510e527f, 0x9b05688c, 0x1f83d9ab);
    assert K[1] == K[0..8][1];
    assert Rounds(K, H0, b, 2)
           == Hash(0x5a6ad9ad, 0x5d6aebcd, 0x6a09e667, 0xbb67ae85, 0x78ce7989, 0xfa2a4622, 0x510e527f, 0x9b05688c);
    assert K[2] == K[0..8][2];
    assert Rounds(K, H0, b, 3)
           == Hash(0xc8c347a7, 0x5a6ad9ad, 0x5d6aebcd, 0x6a09e667, 0xf92939eb, 0x78ce7989, 0xfa2a4622, 0x510e527f);
    assert K[3] == K[0..8][3];
  }

  lemma Rounds4(b: seq<Byte>)
    requires |b| == 64 && Words0(b) && Rounds(K, H0, b, 4) == V4
    ensures Rounds(K, H0, b, 8) == V8
  {
    Constants0();
    assert K[4] == K[0..8][4];
    assert Rounds(K, H0, b, 5)
           == Hash(0x04409a6a, 0xd550f666, 0xc8c347a7, 0x5a6ad9ad, 0x43ada245, 0x24e00850, 0xf92939eb, 0x78ce7989);
    assert K[5] == K[0..8][5];
    assert Rounds(K, H0, b, 6)
           == Hash(0x2b4209f5, 0x04409a6a, 0xd550f666, 0xc8c347a7, 0x714260ad, 0x43ada245, 0x24e00850, 0xf92939eb);
    assert K[6] == K[0..8][6];
    assert Rounds(K, H0, b, 7)
           == Hash(0xe5030380, 0x2b4209f5, 0x04409a6a, 0xd550f666, 0x9b27a401, 0x714260ad, 0x43ada245, 0x24e00850);
    assert K[7] == K[0..8][7];
  }

  lemma Rounds8(b: seq<Byte>)
    requires |b| == 64 && Words1(b) && Rounds(K, H0, b, 8) == V8
    ensures Rounds(K, H0, b, 12) == V12
  {
    Constants1();
    assert K[8] == K[8..16][0];
    assert Rounds(K, H0, b, 9)
           == Hash(0x8e04ecb9, 0x85a07b5f, 0xe5030380, 0x2b4209f5, 0x32ca2d8c, 0x0c657a79, 0x9b27a401, 0x714260ad);
    assert K[9] == K[8..16][1];
    assert Rounds(K, H0, b, 10)
           == Hash(0x8c87346b, 0x8e04ecb9, 0x85a07b5f, 0xe5030380, 0x1cc92596, 0x32ca2d8c, 0x0c657a79, 0x9b27a401);
    assert K[10] == K[8..16][2];
    assert Rounds(K, H0, b, 11)
           == Hash(0x4798a3f4, 0x8c87346b, 0x8e04ecb9, 0x85a07b5f, 0x436b23e8, 0x1cc92596, 0x32ca2d8c, 0x0c657a79);
    assert K[11] == K[8..16][3];
  }

  lemma Rounds12(b: seq<Byte>)
    requires |b| == 64 && Words1(b) && Rounds(K, H0, b, 12) == V12
    ensures Rounds(K, H0, b, 16) == V16
  {
    Constants1();
    assert K[12] == K[8..16][4];
    assert Rounds(K, H0, b, 13)
           == Hash(0x87912990, 0xf71fc5a9, 0x4798a3f4, 0x8c87346b, 0x1e578218, 0x816fd6e9, 0x436b23e8, 0x1cc92596);
    assert K[13] == K[8..16][5];
    assert Rounds(K, H0, b, 14)
           == Hash(0xd932eb16, 0x87912990, 0xf71fc5a9, 0x4798a3f4, 0x745a48de, 0x1e578218, 0x816fd6e9, 0x436b23e8);
    assert K[14] == K[8..16][6];
    assert Rounds(K, H0, b, 15)
           == Hash(0xc0645fde, 0xd932eb16, 0x87912990, 0xf71fc5a9, 0x0b92f20c, 0x745a48de, 0x1e578218, 0x816fd6e9);
    assert K[15] == K[8..16][7];
  }

  lemma Rounds16(b: seq<Byte>)
    requires |b| == 64 && Words2(b) && Rounds(K, H0, b, 16) == V16
    ensures Rounds(K, H0, b, 20) == V20
  {
    Constants2();
    assert K[16] == K[16..24][0];
    assert Rounds(K, H0, b, 17)
           == Hash(0x21da9a9b, 0xb0fa238e, 0xc0645fde, 0xd932eb16, 0x8034229c, 0x07590dcd, 0x0b92f20c, 0x745a48de);
    assert K[17] == K[16..24][1];
    assert Rounds(K, H0, b, 18)
           == Hash(0xc2fbd9d1, 0x21da9a9b, 0xb0fa238e, 0xc0645fde, 0x846ee454, 0x8034229c, 0x07590dcd, 0x0b92f20c);
    assert K[18] == K[16..24][2];
    assert Rounds(K, H0, b, 19)
           == Hash(0xfe777bbf, 0xc2fbd9d1, 0x21da9a9b, 0xb0fa238e, 0xcc899961, 0x846ee454, 0x8034229c, 0x07590dcd);
    assert K[19] == K[16..24][3];
  }

  lemma Rounds20(b: seq<Byte>)
    requires |b| == 64 && Words2(b) && Rounds(K, H0, b, 20) == V20
    ensures Rounds(K, H0, b, 24) == V24
  {
    Constants2();
    assert K[20] == K[16..24][4];
    assert Rounds(K, H0, b, 21)
           == Hash(0x9dc68b63, 0xe1f20c33, 0xfe777bbf, 0xc2fbd9d1, 0x8ada8930, 0xb0638179, 0xcc899961, 0x846ee454);
    assert K[21] == K[16..24][5];
    assert Rounds(K, H0, b, 22)
           == Hash(0xc2606d6d, 0x9dc68b63, 0xe1f20c33, 0xfe777bbf, 0xe1257970, 0x8ada8930, 0xb0638179, 0xcc899961);
    assert K[22] == K[16..24][6];
    assert Rounds(K, H0, b, 23)
           == Hash(0xa7a3623f, 0xc2606d6d, 0x9dc68b63, 0xe1f20c33, 0x49f5114a, 0xe1257970, 0x8ada8930, 0xb0638179);
    assert K[23] == K[16..24][7];
  }

  lemma Rounds24(b: seq<Byte>)
    requires |b| == 64 && Words3(b) && Rounds(K, H0, b, 24) == V24
    ensures Rounds(K, H0, b, 28) == V28
  {
    Constants3();
    assert K[24] == K[24..32][0];
    assert Rounds(K, H0, b, 25)
           == Hash(0x1c2c2838, 0xc5d53d8d, 0xa7a3623f, 0xc2606d6d, 0x2823ef91, 0xaa47c347, 0x49f5114a, 0xe1257970);
    assert K[25] == K[24..32][1];
    assert Rounds(K, H0, b, 26)
           == Hash(0xcde8037d, 0x1c2c2838, 0xc5d53d8d, 0xa7a3623f, 0x14383d8e, 0x2823ef91, 0xaa47c347, 0x49f5114a);
    assert K[26] == K[24..32][2];
    assert Rounds(K, H0, b, 27)
           == Hash(0xb62ec4bc, 0xcde8037d, 0x1c2c2838, 0xc5d53d8d, 0xc74c6516, 0x14383d8e, 0x2823ef91, 0xaa47c347);
    assert K[27] == K[24..32][3];
  }

  lemma Rounds28(b: seq<Byte>)
    requires |b| == 64 && Words3(b) && Rounds(K, H0, b, 28) == V28
    ensures Rounds(K, H0, b, 32) == V32
  {
    Constants3();
    assert K[28] == K[24..32][4];
    assert Rounds(K, H0, b, 29)
           == Hash(0x363482c9, 0x77d37528, 0xb62ec4bc, 0xcde8037d, 0x6112a3b7, 0xedffbff8, 0xc74c6516, 0x14383d8e);
    assert K[29] == K[24..32][5];
    assert Rounds(K, H0, b, 30)
           == Hash(0xa0060b30, 0x363482c9, 0x77d37528, 0xb62ec4bc, 0xade79437, 0x6112a3b7, 0xedffbff8, 0xc74c6516);
    assert K[30] == K[24..32][6];
    assert Rounds(K, H0, b, 31)
           == Hash(0xea992a22, 0xa0060b30, 0x363482c9, 0x77d37528, 0x0109ab3a, 0xade79437, 0x6112a3b7, 0xedffbff8);
    assert K[31] == K[24..32][7];
  }

  lemma Rounds32(b: seq<Byte>)
    requires |b| == 64 && Words4(b) && Rounds(K, H0, b, 32) == V32
    ensures Rounds(K, H0, b, 36) == V36
  {
    Constants4();
    assert K[32] == K[32..40][0];
    assert Rounds(K, H0, b, 33)
           == Hash(0x98e12507, 0x73b33bf5, 0xea992a22, 0xa0060b30, 0x9cd9f5f6, 0xba591112, 0x0109ab3a, 0xade79437);
    assert K[33] == K[32..40][1];
    assert Rounds(K, H0, b, 34)
           == Hash(0xfe604df5, 0x98e12507, 0x73b33bf5, 0xea992a22, 0x59249dd3, 0x9cd9f5f6, 0xba591112, 0x0109ab3a);
    assert K[34] == K[32..40][2];
    assert Rounds(K, H0, b, 35)
           == Hash(0xa9a7738c, 0xfe604df5, 0x98e12507, 0x73b33bf5, 0x085f3833, 0x59249dd3, 0x9cd9f5f6, 0xba591112);
    assert K[35] == K[32..40][3];
  }

  lemma Rounds36(b: seq<Byte>)
    requires |b| == 64 && Words4(b) && Rounds(K, H0, b, 36) == V36
    ensures Rounds(K, H0, b, 40) == V40
  {
    Constants4();
    assert K[36] == K[32..40][4];
    assert Rounds(K, H0, b, 37)
           == Hash(0x41a65cb1, 0x65a0cfe4, 0xa9a7738c, 0xfe604df5, 0x0772a26b, 0xf4b002d6, 0x085f3833, 0x59249dd3);
    assert K[37] == K[32..40][5];
    assert Rounds(K, H0, b, 38)
           == Hash(0x34df1604, 0x41a65cb1, 0x65a0cfe4, 0xa9a7738c, 0xa507a53d, 0x0772a26b, 0xf4b002d6, 0x085f3833);
    assert K[38] == K[32..40][6];
    assert Rounds(K, H0, b, 39)
           == Hash(0x6dc57a8a, 0x34df1604, 0x41a65cb1, 0x65a0cfe4, 0xf0781bc8, 0xa507a53d, 0x0772a26b, 0xf4b002d6);
    assert K[39] == K[32..40][7];
  }

  lemma Rounds40(b: seq<Byte>)
    requires |b| == 64 && Words5(b) && Rounds(K, H0, b, 40) == V40
    ensures Rounds(K, H0, b, 44) == V44
  {
    Constants5();
    assert K[40] == K[40..48][0];
    assert Rounds(K, H0, b, 41)
           == Hash(0xd6670766, 0x79ea687a, 0x6dc57a8a, 0x34df1604, 0x26352d63, 0x1efbc0a0, 0xf0781bc8, 0xa507a53d);
    assert K[41] == K[40..48][1];
    assert Rounds(K, H0, b, 42)
           == Hash(0xdf46652f, 0xd6670766, 0x79ea687a, 0x6dc57a8a, 0x838b2711, 0x26352d63, 0x1efbc0a0, 0xf0781bc8);
    assert K[42] == K[40..48][2];
    assert Rounds(K, H0, b, 43)
           == Hash(0x17aa0dfe, 0xdf46652f, 0xd6670766, 0x79ea687a, 0xdecd4715, 0x838b2711, 0x26352d63, 0x1efbc0a0);
    assert K[43] == K[40..48][3];
  }

  lemma Rounds44(b: seq<Byte>)
    requires |b| == 64 && Words5(b) && Rounds(K, H0, b, 44) == V44
    ensures Rounds(K, H0, b, 48) == V48
  {
    Constants5();
    assert K[44] == K[40..48][4];
    assert Rounds(K, H0, b, 45)
           == Hash(0x26628815, 0x9d4baf93, 0x17aa0dfe, 0xdf46652f, 0xa80f11f0, 0xfda24c2e, 0xdecd4715, 0x838b2711);
    assert K[45] == K[40..48][5];
    assert Rounds(K, H0, b, 46)
           == Hash(0x72ab4b91, 0x26628815, 0x9d4baf93, 0x17aa0dfe, 0xb7755da1, 0xa80f11f0, 0xfda24c2e, 0xdecd4715);
    assert K[46] == K[40..48][6];
    assert Rounds(K, H0, b, 47)
           == Hash(0xa14c14b0, 0x72ab4b91, 0x26628815, 0x9d4baf93, 0xd57b94a9, 0xb7755da1, 0xa80f11f0, 0xfda24c2e);
    assert K[47] == K[40..48][7];
  }

  lemma Rounds48(b: seq<Byte>)
    requires |b| == 64 && Words6(b) && Rounds(K, H0, b, 48) == V48
    ensures Rounds(K, H0, b, 52) == V52
  {
    Constants6();
    assert K[48] == K[48..56][0];
    assert Rounds(K, H0, b, 49)
           == Hash(0x05757ceb, 0x4172328d, 0xa14c14b0, 0x72ab4b91, 0xbd714038, 0xfecf0bc6, 0xd57b94a9, 0xb7755da1);
    assert K[49] == K[48..56][1];
    assert Rounds(K, H0, b, 50)
           == Hash(0xf11bfaa8, 0x05757ceb, 0x4172328d, 0xa14c14b0, 0x6e5c390c, 0xbd714038, 0xfecf0bc6, 0xd57b94a9);
    assert K[50] == K[48..56][2];
    assert Rounds(K, H0, b, 51)
           == Hash(0x7a0508a1, 0xf11bfaa8, 0x05757ceb, 0x4172328d, 0x52f1ccf7, 0x6e5c390c, 0xbd714038, 0xfecf0bc6);
    assert K[51] == K[48..56][3];
  }

  lemma Rounds52(b: seq<Byte>)
    requires |b| == 64 && Words6(b) && Rounds(K, H0, b, 52) == V52
    ensures Rounds(K, H0, b, 56) == V56
  {
    Constants6();
    assert K[52] == K[48..56][4];
    assert Rounds(K, H0, b, 53)
           == Hash(0x101fd28f, 0x886e7a22, 0x7a0508a1, 0xf11bfaa8, 0x529e7d00, 0x49231c1e, 0x52f1ccf7, 0x6e5c390c);
    assert K[53] == K[48..56][5];
    assert Rounds(K, H0, b, 54)
           == Hash(0xf5702fdb, 0x101fd28f, 0x886e7a22, 0x7a0508a1, 0x9f4787c3, 0x529e7d00, 0x49231c1e, 0x52f1ccf7);
    assert K[54] == K[48..56][6];
    assert Rounds(K, H0, b, 55)
           == Hash(0x3ec45cdb, 0xf5702fdb, 0x101fd28f, 0x886e7a22, 0xe50e1b4f, 0x9f4787c3, 0x529e7d00, 0x49231c1e);
    assert K[55] == K[48..56][7];
  }

  lemma Rounds56(b: seq<Byte>)
    requires |b| == 64 && Words7(b) && Rounds(K, H0, b, 56) == V56
    ensures Rounds(K, H0, b, 60) == V60
  {
    Constants7();
    assert K[56] == K[56..64][0];
    assert Rounds(K, H0, b, 57)
           == Hash(0xfcd1887b, 0x38cc9913, 0x3ec45cdb, 0xf5702fdb, 0x9b5e906c, 0x54cb266b, 0xe50e1b4f, 0x9f4787c3);
    assert K[57] == K[56..64][1];
    assert Rounds(K, H0, b, 58)
           == Hash(0xc062d46f, 0xfcd1887b, 0x38cc9913, 0x3ec45cdb, 0x7e44008e, 0x9b5e906c, 0x54cb266b, 0xe50e1b4f);
    assert K[58] == K[56..64][2];
    assert Rounds(K, H0, b, 59)
           == Hash(0xffb70472, 0xc062d46f, 0xfcd1887b, 0x38cc9913, 0x6d83bfc6, 0x7e44008e, 0x9b5e906c, 0x54cb266b);
    assert K[59] == K[56..64][3];
  }

  lemma Rounds60(b: seq<Byte>)
    requires |b| == 64 && Words7(b) && Rounds(K, H0, b, 60) == V60
    ensures Rounds(K, H0, b, 64) == V64
  {
    Constants7();
    assert K[60] == K[56..64][4];
    assert Rounds(K, H0, b, 61)
           == Hash(0xb85e2ce9, 0xb6ae8fff, 0xffb70472, 0xc062d46f, 0x961f4894, 0xb21bad3d, 0x6d83bfc6, 0x7e44008e);
    assert K[61] == K[56..64][5];
    assert Rounds(K, H0, b, 62)
           == Hash(0x04d24d6c, 0xb85e2ce9, 0xb6ae8fff, 0xffb70472, 0x948d25b6, 0x961f4894, 0xb21bad3d, 0x6d83bfc6);
    assert K[62] == K[56..64][6];
    assert Rounds(K, H0, b, 63)
           == Hash(0xd39a2165, 0x04d24d6c, 0xb85e2ce9, 0xb6ae8fff, 0xfb121210, 0x948d25b6, 0x961f4894, 0xb21bad3d);
    assert K[63] == K[56..64][7];
  }

  lemma AllRounds(b: seq<Byte>)
    requires IsBlock(b)
    ensures Rounds(K, H0, b, 64) == V64
  {
    Schedule0(b);
    Schedule1(b);
    Schedule2(b);
    Schedule3(b);
    Schedule4(b);
    Schedule5(b);
    Schedule6(b);
    Schedule7(b);
    Rounds0(b);
    Rounds4(b);
    Rounds8(b);
    Rounds12(b);
    Rounds16(b);
    Rounds20(b);
    Rounds24(b);
    Rounds28(b);
    Rounds32(b);
    Rounds36(b);
    Rounds40(b);
    Rounds44(b);
    Rounds48(b);
    Rounds52(b);
    Rounds56(b);
    Rounds60(b);
  }

  const FINAL := Hash(0xba7816bf, 0x8f01cfea, 0x414140de, 0x5dae2223, 0xb00361a3, 0x96177a9c, 0xb410ff61, 0xf20015ad)

  lemma Added()
    ensures AddHash(H0, V64) == FINAL
  {}

  lemma Bytes0()
    ensures OutByte(FINAL, 0) == 0xba
    ensures OutByte(FINAL, 1) == 0x78
    ensures OutByte(FINAL, 2) == 0x16
    ensures OutByte(FINAL, 3) == 0xbf
  {}

  lemma Bytes1()
    ensures OutByte(FINAL, 4) == 0x8f
    ensures OutByte(FINAL, 5) == 0x01
    ensures OutByte(FINAL, 6) == 0xcf
    ensures OutByte(FINAL, 7) == 0xea
  {}

  lemma Bytes2()
    ensures OutByte(FINAL, 8) == 0x41
    ensures OutByte(FINAL, 9) == 0x41
    ensures OutByte(FINAL, 10) == 0x40
    ensures OutByte(FINAL, 11) == 0xde
  {}

  lemma Bytes3()
    ensures OutByte(FINAL, 12) == 0x5d
    ensures OutByte(FINAL, 13) == 0xae
    ensures OutByte(FINAL, 14) == 0x22
    ensures OutByte(FINAL, 15) == 0x23
  {}

  lemma Bytes4()
    ensures OutByte(FINAL, 16) == 0xb0
    ensures OutByte(FINAL, 17) == 0x03
    ensures OutByte(FINAL, 18) == 0x61
    ensures OutByte(FINAL, 19) == 0xa3
  {}

  lemma Bytes5()
    ensures OutByte(FINAL, 20) == 0x96
    ensures OutByte(FINAL, 21) == 0x17
    ensures OutByte(FINAL, 22) == 0x7a
    ensures OutByte(FINAL, 23) == 0x9c
  {}

  lemma Bytes6()
    ensures OutByte(FINAL, 24) == 0xb4
    ensures OutByte(FINAL, 25) == 0x10
    ensures OutByte(FINAL, 26) == 0xff
    ensures OutByte(FINAL, 27) == 0x61
  {}

  lemma Bytes7()
    ensures OutByte(FINAL, 28) == 0xf2
    ensures OutByte(FINAL, 29) == 0x00
    ensures OutByte(FINAL, 30) == 0x15
    ensures OutByte(FINAL, 31) == 0xad
  {}

  lemma FinalBytes()
    ensures HashBytes(FINAL) == ANSWER
  {
    Bytes0();
    Bytes1();
    Bytes2();
    Bytes3();
    Bytes4();
    Bytes5();
    Bytes6();
    Bytes7();
  }

  /** The example of the standard. */
  lemma Example()
    ensures Digest(K, ABC) == ANSWER
  {
    var b := Pad(ABC);
    Padded(b);
    AllRounds(b);
    Added();
    HashOne(K, H0, b);
    FinalBytes();
  }
}
