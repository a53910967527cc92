/**
  The digest of the empty message, computed round by round. It depends on every constant, every rotation
  and the order of everything.
 */
module Sha256Vector {
  import opened Sha256
  import opened Bytes
  import opened Powers

  /** The one block of the padded empty message. */
  predicate IsEmptyBlock(b: Block) {
    b == [0x80] + Zeros(63)
  }

  lemma PaddedEmpty(b: Block)
    requires IsEmptyBlock(b)
    ensures Padded([]) == b
  {
    LengthOfEmpty();
    hide LengthBytes, ZeroCount, Zeros;
    ZerosJoin(55, 8);
    assert [] + [0x80] == [0x80];
    assert [0x80] + (Zeros(55) + Zeros(8)) == [0x80] + Zeros(55) + Zeros(8);
  }

  lemma OneBlock(b: Block)
    ensures Hash(b) == Compress(H0, b)
  {
    hide Compress;
    HashAppend([], b);
    assert [] + b == b;
  }

  lemma LengthOfEmpty()
    ensures LengthBytes(0) == Zeros(8) && ZeroCount(0) == 55
  {
    forall i | 0 <= i < 8
      ensures BigEndianByte(0, 8, i) == 0
    {
      assert 0 / Power256(7 - i) == 0;
    }
  }

  // ---------------------------------------------------------------- the message schedule

  function W(b: Block, t: nat): bv32 {
    Schedule(b, t)
  }

  lemma FirstWord(b: Block, t: nat)
    requires IsEmptyBlock(b) && t < 16
    ensures W(b, t) == if t == 0 then 0x80000000 else 0
  {
  }

  lemma FirstWords(b: Block)
    requires IsEmptyBlock(b)
    ensures W(b, 0) == 0x80000000
    ensures forall t: nat :: 1 <= t < 16 ==> W(b, t) == 0
    ensures W(b, 1) == 0 && W(b, 2) == 0 && W(b, 3) == 0 && W(b, 4) == 0 && W(b, 5) == 0 && W(b, 6) == 0
    ensures W(b, 7) == 0
  {
    hide W;
    FirstWord(b, 0);
    forall t: nat | 1 <= t < 16
      ensures W(b, t) == 0
    {
      FirstWord(b, t);
    }
  }

  lemma NextWord(b: Block, t: nat, w2: bv32, w7: bv32, w15: bv32, w16: bv32, w: bv32)
    requires 16 <= t && W(b, t - 2) == w2 && W(b, t - 7) == w7 && W(b, t - 15) == w15 && W(b, t - 16) == w16
    requires Add(Add(Add(SmallSigma1(w2), w7), SmallSigma0(w15)), w16) == w
    ensures W(b, t) == w
  {
    hide Add, SmallSigma0, SmallSigma1;
  }

  lemma Words0(b: Block)
    requires IsEmptyBlock(b)
    ensures W(b, 16) == 0x80000000 && W(b, 17) == 0 && W(b, 18) == 0x00205000 && W(b, 19) == 0 &&
            W(b, 20) == 0x22000800 && W(b, 21) == 0 && W(b, 22) == 0x05089542 && W(b, 23) == 0x80000000 &&
            W(b, 24) == 0x58080000 && W(b, 25) == 0x0040a000 && W(b, 26) == 0x00162505 && W(b, 27) == 0x66001800 &&
            W(b, 28) == 0xd6222580 && W(b, 29) == 0x14225508 && W(b, 30) == 0xd645f95c && W(b, 31) == 0xc9282000
  {
    hide W;
    FirstWords(b);
    NextWord(b, 16, 0, 0, 0, 0x80000000, 0x80000000);
    NextWord(b, 17, 0, 0, 0, 0, 0);
    NextWord(b, 18, 0x80000000, 0, 0, 0, 0x00205000);
    NextWord(b, 19, 0, 0, 0, 0, 0);
    NextWord(b, 20, 0x00205000, 0, 0, 0, 0x22000800);
    NextWord(b, 21, 0, 0, 0, 0, 0);
    NextWord(b, 22, 0x22000800, 0, 0, 0, 0x05089542);
    NextWord(b, 23, 0, 0x80000000, 0, 0, 0x80000000);
    NextWord(b, 24, 0x05089542, 0, 0, 0, 0x58080000);
    NextWord(b, 25, 0x80000000, 0x00205000, 0, 0, 0x0040a000);
    NextWord(b, 26, 0x58080000, 0, 0, 0, 0x00162505);
    NextWord(b, 27, 0x0040a000, 0x22000800, 0, 0, 0x66001800);
    NextWord(b, 28, 0x00162505, 0, 0, 0, 0xd6222580);
    NextWord(b, 29, 0x66001800, 0x05089542, 0, 0, 0x14225508);
    NextWord(b, 30, 0xd6222580, 0x80000000, 0, 0, 0xd645f95c);
    NextWord(b, 31, 0x14225508, 0x58080000, 0x80000000, 0, 0xc9282000);
  }

  lemma Words1(b: Block)
    requires IsEmptyBlock(b)
    ensures W(b, 32) == 0xc3f10094 && W(b, 33) == 0x284ca766 && W(b, 34) == 0x06886dc6 && W(b, 35) == 0xa37bf116 &&
            W(b, 36) == 0x717cbe96 && W(b, 37) == 0xfec2d74a && W(b, 38) == 0xa7b67f00 && W(b, 39) == 0x811596a2 &&
            W(b, 40) == 0x98a6e768 && W(b, 41) == 0x03b20c82 && W(b, 42) == 0x5d1da7c9 && W(b, 43) == 0xb156b935 &&
            W(b, 44) == 0xc3ddca11 && W(b, 45) == 0x249c107f && W(b, 46) == 0xc48d24ef && W(b, 47) == 0x5de54c30
  {
    hide W;
    Words0(b);
    NextWord(b, 32, 0xd645f95c, 0x0040a000, 0, 0x80000000, 0xc3f10094);
    NextWord(b, 33, 0xc9282000, 0x00162505, 0x00205000, 0, 0x284ca766);
    NextWord(b, 34, 0xc3f10094, 0x66001800, 0, 0x00205000, 0x06886dc6);
    NextWord(b, 35, 0x284ca766, 0xd6222580, 0x22000800, 0, 0xa37bf116);
    NextWord(b, 36, 0x06886dc6, 0x14225508, 0, 0x22000800, 0x717cbe96);
    NextWord(b, 37, 0xa37bf116, 0xd645f95c, 0x05089542, 0, 0xfec2d74a);
    NextWord(b, 38, 0x717cbe96, 0xc9282000, 0x80000000, 0x05089542, 0xa7b67f00);
    NextWord(b, 39, 0xfec2d74a, 0xc3f10094, 0x58080000, 0x80000000, 0x811596a2);
    NextWord(b, 40, 0xa7b67f00, 0x284ca766, 0x0040a000, 0x58080000, 0x98a6e768);
    NextWord(b, 41, 0x811596a2, 0x06886dc6, 0x00162505, 0x0040a000, 0x03b20c82);
    NextWord(b, 42, 0x98a6e768, 0xa37bf116, 0x66001800, 0x00162505, 0x5d1da7c9);
    NextWord(b, 43, 0x03b20c82, 0x717cbe96, 0xd6222580, 0x66001800, 0xb156b935);
    NextWord(b, 44, 0x5d1da7c9, 0xfec2d74a, 0x14225508, 0xd6222580, 0xc3ddca11);
    NextWord(b, 45, 0xb156b935, 0xa7b67f00, 0xd645f95c, 0x14225508, 0x249c107f);
    NextWord(b, 46, 0xc3ddca11, 0x811596a2, 0xc9282000, 0xd645f95c, 0xc48d24ef);
    NextWord(b, 47, 0x249c107f, 0x98a6e768, 0xc3f10094, 0xc9282000, 0x5de54c30);
  }

  lemma Words2(b: Block)
    requires IsEmptyBlock(b)
    ensures W(b, 48) == 0xdefece65 && W(b, 49) == 0x2ca1480d && W(b, 50) == 0x3c15332c && W(b, 51) == 0x01cec9ad &&
            W(b, 52) == 0x160cccd0 && W(b, 53) == 0x0bacda98 && W(b, 54) == 0x361b8fe0 && W(b, 55) == 0xd2320ba6 &&
            W(b, 56) == 0x029b7007 && W(b, 57) == 0x7546587c && W(b, 58) == 0x07f54f39 && W(b, 59) == 0xf808ddc3 &&
            W(b, 60) == 0xdcca7608 && W(b, 61) == 0x5e427188 && W(b, 62) == 0x44bcec5d && W(b, 63) == 0x3b5ec49b
  {
    hide W;
    Words0(b);
    Words1(b);
    NextWord(b, 48, 0xc48d24ef, 0x03b20c82, 0x284ca766, 0xc3f10094, 0xdefece65);
    NextWord(b, 49, 0x5de54c30, 0x5d1da7c9, 0x06886dc6, 0x284ca766, 0x2ca1480d);
    NextWord(b, 50, 0xdefece65, 0xb156b935, 0xa37bf116, 0x06886dc6, 0x3c15332c);
    NextWord(b, 51, 0x2ca1480d, 0xc3ddca11, 0x717cbe96, 0xa37bf116, 0x01cec9ad);
    NextWord(b, 52, 0x3c15332c, 0x249c107f, 0xfec2d74a, 0x717cbe96, 0x160cccd0);
    NextWord(b, 53, 0x01cec9ad, 0xc48d24ef, 0xa7b67f00, 0xfec2d74a, 0x0bacda98);
    NextWord(b, 54, 0x160cccd0, 0x5de54c30, 0x811596a2, 0xa7b67f00, 0x361b8fe0);
    NextWord(b, 55, 0x0bacda98, 0xdefece65, 0x98a6e768, 0x811596a2, 0xd2320ba6);
    NextWord(b, 56, 0x361b8fe0, 0x2ca1480d, 0x03b20c82, 0x98a6e768, 0x029b7007);
    NextWord(b, 57, 0xd2320ba6, 0x3c15332c, 0x5d1da7c9, 0x03b20c82, 0x7546587c);
    NextWord(b, 58, 0x029b7007, 0x01cec9ad, 0xb156b935, 0x5d1da7c9, 0x07f54f39);
    NextWord(b, 59, 0x7546587c, 0x160cccd0, 0xc3ddca11, 0xb156b935, 0xf808ddc3);
    NextWord(b, 60, 0x07f54f39, 0x0bacda98, 0x249c107f, 0xc3ddca11, 0xdcca7608);
    NextWord(b, 61, 0xf808ddc3, 0x361b8fe0, 0xc48d24ef, 0x249c107f, 0x5e427188);
    NextWord(b, 62, 0xdcca7608, 0xd2320ba6, 0x5de54c30, 0xc48d24ef, 0x44bcec5d);
    NextWord(b, 63, 0x5e427188, 0x029b7007, 0xdefece65, 0x5de54c30, 0x3b5ec49b);
  }

  // ---------------------------------------------------------------- the rounds

  /** The working variables after `t` rounds. */
  function V(b: Block, t: nat): Words
    requires t <= 64
  {
    Rounds(b, H0, t)
  }

  lemma Start(b: Block)
    ensures V(b, 0) ==
      [0x6a09e667, 0xbb67ae85, 0x3c6ef372, 0xa54ff53a, 0x510e527f, 0x9b05688c, 0x1f83d9ab, 0x5be0cd19]
  {
  }

  lemma NextRound(b: Block, t: nat, k: bv32, w: bv32)
    requires t < 64 && K[t] == k && W(b, t) == w
    ensures V(b, t + 1) == Round(V(b, t), k, w)
  {
  }

  lemma Constants0()
    ensures |K| == 64
    ensures K[0] == 0x428a2f98 && K[1] == 0x71374491 && K[2] == 0xb5c0fbcf && K[3] == 0xe9b5dba5 &&
            K[4] == 0x3956c25b && K[5] == 0x59f111f1 && K[6] == 0x923f82a4 && K[7] == 0xab1c5ed5
  {
  }

  lemma Rounds0(b: Block)
    requires IsEmptyBlock(b)
    ensures V(b, 8) ==
      [0x7ad5b1b6, 0xf0205590, 0x292e3b42, 0x4366f730, 0x53f94dcb, 0x82ede06f, 0x4f6540fa, 0xe7d0641e]
  {
    hide K, W, V;
    Constants0();
    Start(b);
    FirstWords(b);
    NextRound(b, 0, 0x428a2f98, 0x80000000);
    NextRound(b, 1, 0x71374491, 0);
    NextRound(b, 2, 0xb5c0fbcf, 0);
    NextRound(b, 3, 0xe9b5dba5, 0);
    NextRound(b, 4, 0x3956c25b, 0);
    NextRound(b, 5, 0x59f111f1, 0);
    NextRound(b, 6, 0x923f82a4, 0);
    NextRound(b, 7, 0xab1c5ed5, 0);
    assert
      Round(Round(Round(Round(
        [0x6a09e667, 0xbb67ae85, 0x3c6ef372, 0xa54ff53a, 0x510e527f, 0x9b05688c, 0x1f83d9ab, 0x5be0cd19],
        0x428a2f98, 0x80000000), 0x71374491, 0), 0xb5c0fbcf, 0), 0xe9b5dba5, 0) ==
      [0x4c23eacb, 0xc4ac5526, 0x9ce564d0, 0x7c08884d, 0x3037e1b5, 0x6fdb22fa, 0x2001b256, 0x18c7e2a2];
    assert
      Round(Round(Round(Round(
        [0x4c23eacb, 0xc4ac5526, 0x9ce564d0, 0x7c08884d, 0x3037e1b5, 0x6fdb22fa, 0x2001b256, 0x18c7e2a2],
        0x3956c25b, 0), 0x59f111f1, 0), 0x923f82a4, 0), 0xab1c5ed5, 0) ==
      [0x7ad5b1b6, 0xf0205590, 0x292e3b42, 0x4366f730, 0x53f94dcb, 0x82ede06f, 0x4f6540fa, 0xe7d0641e];
  }

  lemma Constants1()
    ensures |K| == 64
    ensures K[8] == 0xd807aa98 && K[9] == 0x12835b01 && K[10] == 0x243185be && K[11] == 0x550c7dc3 &&
            K[12] == 0x72be5d74 && K[13] == 0x80deb1fe && K[14] == 0x9bdc06a7 && K[15] == 0xc19bf174
  {
  }

  lemma Rounds1(b: Block)
    requires IsEmptyBlock(b)
    ensures V(b, 16) ==
      [0xb40085b5, 0xb88afddb, 0x45c013a7, 0x2102d2cd, 0x5cb8e863, 0x1ccfac39, 0x2b427296, 0xcdfdfe52]
  {
    hide K, W, V;
    Constants1();
    Rounds0(b);
    FirstWords(b);
    NextRound(b, 8, 0xd807aa98, 0);
    NextRound(b, 9, 0x12835b01, 0);
    NextRound(b, 10, 0x243185be, 0);
    NextRound(b, 11, 0x550c7dc3, 0);
    NextRound(b, 12, 0x72be5d74, 0);
    NextRound(b, 13, 0x80deb1fe, 0);
    NextRound(b, 14, 0x9bdc06a7, 0);
    NextRound(b, 15, 0xc19bf174, 0);
    assert
      Round(Round(Round(Round(
        [0x7ad5b1b6, 0xf0205590, 0x292e3b42, 0x4366f730, 0x53f94dcb, 0x82ede06f, 0x4f6540fa, 0xe7d0641e],
        0xd807aa98, 0), 0x12835b01, 0), 0x243185be, 0), 0x550c7dc3, 0) ==
      [0xf5434c40, 0x158bb921, 0xefe8bf51, 0xf52d63a5, 0xd7e07c92, 0xe23643ce, 0x53072289, 0x7aafc618];
    assert
      Round(Round(Round(Round(
        [0xf5434c40, 0x158bb921, 0xefe8bf51, 0xf52d63a5, 0xd7e07c92, 0xe23643ce, 0x53072289, 0x7aafc618],
        0x72be5d74, 0), 0x80deb1fe, 0), 0x9bdc06a7, 0), 0xc19bf174, 0) ==
      [0xb40085b5, 0xb88afddb, 0x45c013a7, 0x2102d2cd, 0x5cb8e863, 0x1ccfac39, 0x2b427296, 0xcdfdfe52];
  }

  lemma Constants2()
    ensures |K| == 64
    ensures K[16] == 0xe49b69c1 && K[17] == 0xefbe4786 && K[18] == 0x0fc19dc6 && K[19] == 0x240ca1cc &&
            K[20] == 0x2de92c6f && K[21] == 0x4a7484aa && K[22] == 0x5cb0a9dc && K[23] == 0x76f988da
  {
  }

  lemma Rounds2(b: Block)
    requires IsEmptyBlock(b)
    ensures V(b, 24) ==
      [0x985bed55, 0x404d8054, 0x99a6cb19, 0x75c7f0d8, 0x2c2c028d, 0xb1653710, 0xc287981e, 0x39953ccd]
  {
    hide K, W, V;
    Constants2();
    Rounds1(b);
    Words0(b);
    NextRound(b, 16, 0xe49b69c1, 0x80000000);
    NextRound(b, 17, 0xefbe4786, 0);
    NextRound(b, 18, 0x0fc19dc6, 0x00205000);
    NextRound(b, 19, 0x240ca1cc, 0);
    NextRound(b, 20, 0x2de92c6f, 0x22000800);
    NextRound(b, 21, 0x4a7484aa, 0);
    NextRound(b, 22, 0x5cb0a9dc, 0x05089542);
    NextRound(b, 23, 0x76f988da, 0x80000000);
    assert
      Round(Round(Round(Round(
        [0xb40085b5, 0xb88afddb, 0x45c013a7, 0x2102d2cd, 0x5cb8e863, 0x1ccfac39, 0x2b427296, 0xcdfdfe52],
        0xe49b69c1, 0x80000000), 0xefbe4786, 0), 0x0fc19dc6, 0x00205000), 0x240ca1cc, 0) ==
      [0x0a480908, 0x3067996a, 0xdd999a2b, 0x470d554a, 0x900d27ac, 0xd398dcea, 0x608c93d3, 0x70d43aa7];
    assert
      Round(Round(Round(Round(
        [0x0a480908, 0x3067996a, 0xdd999a2b, 0x470d554a, 0x900d27ac, 0xd398dcea, 0x608c93d3, 0x70d43aa7],
        0x2de92c6f, 0x22000800), 0x4a7484aa, 0), 0x5cb0a9dc, 0x05089542), 0x76f988da, 0x80000000) ==
      [0x985bed55, 0x404d8054, 0x99a6cb19, 0x75c7f0d8, 0x2c2c028d, 0xb1653710, 0xc287981e, 0x39953ccd];
  }

  lemma Constants3()
    ensures |K| == 64
    ensures K[24] == 0x983e5152 && K[25] == 0xa831c66d && K[26] == 0xb00327c8 && K[27] == 0xbf597fc7 &&
            K[28] == 0xc6e00bf3 && K[29] == 0xd5a79147 && K[30] == 0x06ca6351 && K[31] == 0x14292967
  {
  }

  lemma Rounds3(b: Block)
    requires IsEmptyBlock(b)
    ensures V(b, 32) ==
      [0x11e7025f, 0xa0bb0cdf, 0x72d3a00d, 0x64bc9e1c, 0xbbd7846c, 0x564a6626, 0xb04ab22d, 0x95696b75]
  {
    hide K, W, V;
    Constants3();
    Rounds2(b);
    Words0(b);
    NextRound(b, 24, 0x983e5152, 0x58080000);
    NextRound(b, 25, 0xa831c66d, 0x0040a000);
    NextRound(b, 26, 0xb00327c8, 0x00162505);
    NextRound(b, 27, 0xbf597fc7, 0x66001800);
    NextRound(b, 28, 0xc6e00bf3, 0xd6222580);
    NextRound(b, 29, 0xd5a79147, 0x14225508);
    NextRound(b, 30, 0x06ca6351, 0xd645f95c);
    NextRound(b, 31, 0x14292967, 0xc9282000);
    assert
      Round(Round(Round(Round(
        [0x985bed55, 0x404d8054, 0x99a6cb19, 0x75c7f0d8, 0x2c2c028d, 0xb1653710, 0xc287981e, 0x39953ccd],
        0x983e5152, 0x58080000), 0xa831c66d, 0x0040a000), 0xb00327c8, 0x00162505), 0xbf597fc7, 0x66001800) ==
      [0x6d8cc697, 0x2c8b2ab9, 0xc5b814ae, 0x7af6d48d, 0x66ed54fa, 0x9f934283, 0xe57ac3f4, 0xf55f8c25];
    assert
      Round(Round(Round(Round(
        [0x6d8cc697, 0x2c8b2ab9, 0xc5b814ae, 0x7af6d48d, 0x66ed54fa, 0x9f934283, 0xe57ac3f4, 0xf55f8c25],
        0xc6e00bf3, 0xd6222580), 0xd5a79147, 0x14225508), 0x06ca6351, 0xd645f95c), 0x14292967, 0xc9282000) ==
      [0x11e7025f, 0xa0bb0cdf, 0x72d3a00d, 0x64bc9e1c, 0xbbd7846c, 0x564a6626, 0xb04ab22d, 0x95696b75];
  }

  lemma Constants4()
    ensures |K| == 64
    ensures K[32] == 0x27b70a85 && K[33] == 0x2e1b2138 && K[34] == 0x4d2c6dfc && K[35] == 0x53380d13 &&
            K[36] == 0x650a7354 && K[37] == 0x766a0abb && K[38] == 0x81c2c92e && K[39] == 0x92722c85
  {
  }

  lemma Rounds4(b: Block)
    requires IsEmptyBlock(b)
    ensures V(b, 40) ==
      [0x499911b1, 0x9e58e42f, 0x56e3dc4e, 0xa096535d, 0x716bb025, 0x85a71424, 0xe807ea7f, 0xfac06aed]
  {
    hide K, W, V;
    Constants4();
    Rounds3(b);
    Words1(b);
    NextRound(b, 32, 0x27b70a85, 0xc3f10094);
    NextRound(b, 33, 0x2e1b2138, 0x284ca766);
    NextRound(b, 34, 0x4d2c6dfc, 0x06886dc6);
    NextRound(b, 35, 0x53380d13, 0xa37bf116);
    NextRound(b, 36, 0x650a7354, 0x717cbe96);
    NextRound(b, 37, 0x766a0abb, 0xfec2d74a);
    NextRound(b, 38, 0x81c2c92e, 0xa7b67f00);
    NextRound(b, 39, 0x92722c85, 0x811596a2);
    assert
      Round(Round(Round(Round(
        [0x11e7025f, 0xa0bb0cdf, 0x72d3a00d, 0x64bc9e1c, 0xbbd7846c, 0x564a6626, 0xb04ab22d, 0x95696b75],
        0x27b70a85, 0xc3f10094), 0x2e1b2138, 0x284ca766), 0x4d2c6dfc, 0x06886dc6), 0x53380d13, 0xa37bf116) ==
      [0x641fe878, 0x44a181a7, 0xa141b695, 0xe390f3b6, 0x3a705ea9, 0x6973aac2, 0x0bc457df, 0xccd25d8b];
    assert
      Round(Round(Round(Round(
        [0x641fe878, 0x44a181a7, 0xa141b695, 0xe390f3b6, 0x3a705ea9, 0x6973aac2, 0x0bc457df, 0xccd25d8b],
        0x650a7354, 0x717cbe96), 0x766a0abb, 0xfec2d74a), 0x81c2c92e, 0xa7b67f00), 0x92722c85, 0x811596a2) ==
      [0x499911b1, 0x9e58e42f, 0x56e3dc4e, 0xa096535d, 0x716bb025, 0x85a71424, 0xe807ea7f, 0xfac06aed];
  }

  lemma Constants5()
    ensures |K| == 64
    ensures K[40] == 0xa2bfe8a1 && K[41] == 0xa81a664b && K[42] == 0xc24b8b70 && K[43] == 0xc76c51a3 &&
            K[44] == 0xd192e819 && K[45] == 0xd6990624 && K[46] == 0xf40e3585 && K[47] == 0x106aa070
  {
  }

  lemma Rounds5(b: Block)
    requires IsEmptyBlock(b)
    ensures V(b, 48) ==
      [0x365a34cd, 0x54982d6c, 0x32fa442b, 0xa40972d4, 0xcbb3f8eb, 0x8a6a82b2, 0xd285c679, 0xaa2c1810]
  {
    hide K, W, V;
    Constants5();
    Rounds4(b);
    Words1(b);
    NextRound(b, 40, 0xa2bfe8a1, 0x98a6e768);
    NextRound(b, 41, 0xa81a664b, 0x03b20c82);
    NextRound(b, 42, 0xc24b8b70, 0x5d1da7c9);
    NextRound(b, 43, 0xc76c51a3, 0xb156b935);
    NextRound(b, 44, 0xd192e819, 0xc3ddca11);
    NextRound(b, 45, 0xd6990624, 0x249c107f);
    NextRound(b, 46, 0xf40e3585, 0xc48d24ef);
    NextRound(b, 47, 0x106aa070, 0x5de54c30);
    assert
      Round(Round(Round(Round(
        [0x499911b1, 0x9e58e42f, 0x56e3dc4e, 0xa096535d, 0x716bb025, 0x85a71424, 0xe807ea7f, 0xfac06aed],
        0xa2bfe8a1, 0x98a6e768), 0xa81a664b, 0x03b20c82), 0xc24b8b70, 0x5d1da7c9), 0xc76c51a3, 0xb156b935) ==
      [0xe8e34752, 0xdbb545ab, 0x2298f88e, 0xfe86c833, 0x29426caa, 0xe0403eb9, 0xf5c58ae9, 0x849879df];
    assert
      Round(Round(Round(Round(
        [0xe8e34752, 0xdbb545ab, 0x2298f88e, 0xfe86c833, 0x29426caa, 0xe0403eb9, 0xf5c58ae9, 0x849879df],
        0xd192e819, 0xc3ddca11), 0xd6990624, 0x249c107f), 0xf40e3585, 0xc48d24ef), 0x106aa070, 0x5de54c30) ==
      [0x365a34cd, 0x54982d6c, 0x32fa442b, 0xa40972d4, 0xcbb3f8eb, 0x8a6a82b2, 0xd285c679, 0xaa2c1810];
  }

  lemma Constants6()
    ensures |K| == 64
    ensures K[48] == 0x19a4c116 && K[49] == 0x1e376c08 && K[50] == 0x2748774c && K[51] == 0x34b0bcb5 &&
            K[52] == 0x391c0cb3 && K[53] == 0x4ed8aa4a && K[54] == 0x5b9cca4f && K[55] == 0x682e6ff3
  {
  }

  lemma Rounds6(b: Block)
    requires IsEmptyBlock(b)
    ensures V(b, 56) ==
      [0x01638014, 0x2caf58ca, 0x3a0e9477, 0xb1b29c90, 0xadf94e0a, 0xe588e598, 0xfd99936e, 0x43a5def8]
  {
    hide K, W, V;
    Constants6();
    Rounds5(b);
    Words2(b);
    NextRound(b, 48, 0x19a4c116, 0xdefece65);
    NextRound(b, 49, 0x1e376c08, 0x2ca1480d);
    NextRound(b, 50, 0x2748774c, 0x3c15332c);
    NextRound(b, 51, 0x34b0bcb5, 0x01cec9ad);
    NextRound(b, 52, 0x391c0cb3, 0x160cccd0);
    NextRound(b, 53, 0x4ed8aa4a, 0x0bacda98);
    NextRound(b, 54, 0x5b9cca4f, 0x361b8fe0);
    NextRound(b, 55, 0x682e6ff3, 0xd2320ba6);
    assert
      Round(Round(Round(Round(
        [0x365a34cd, 0x54982d6c, 0x32fa442b, 0xa40972d4, 0xcbb3f8eb, 0x8a6a82b2, 0xd285c679, 0xaa2c1810],
        0x19a4c116, 0xdefece65), 0x1e376c08, 0x2ca1480d), 0x2748774c, 0x3c15332c), 0x34b0bcb5, 0x01cec9ad) ==
      [0xd55e06c2, 0xc163cb21, 0x9798f5ed, 0x62a82a5e, 0xa194d14f, 0x36068bde, 0xe90aa770, 0x4cab6d8a];
    assert
      Round(Round(Round(Round(
        [0xd55e06c2, 0xc163cb21, 0x9798f5ed, 0x62a82a5e, 0xa194d14f, 0x36068bde, 0xe90aa770, 0x4cab6d8a],
        0x391c0cb3, 0x160cccd0), 0x4ed8aa4a, 0x0bacda98), 0x5b9cca4f, 0x361b8fe0), 0x682e6ff3, 0xd2320ba6) ==
      [0x01638014, 0x2caf58ca, 0x3a0e9477, 0xb1b29c90, 0xadf94e0a, 0xe588e598, 0xfd99936e, 0x43a5def8];
  }

  lemma Constants7()
    ensures |K| == 64
    ensures K[56] == 0x748f82ee && K[57] == 0x78a5636f && K[58] == 0x84c87814 && K[59] == 0x8cc70208 &&
            K[60] == 0x90befffa && K[61] == 0xa4506ceb && K[62] == 0xbef9a3f7 && K[63] == 0xc67178f2
  {
  }

  lemma Rounds7(b: Block)
    requires IsEmptyBlock(b)
    ensures V(b, 64) ==
      [0x79a6dddb, 0xdd946d8f, 0x5e8d0156, 0xf41fc3ea, 0xd69fef65, 0xc9962ac0, 0x8511bf70, 0x1c71eb3c]
  {
    hide K, W, V;
    Constants7();
    Rounds6(b);
    Words2(b);
    NextRound(b, 56, 0x748f82ee, 0x029b7007);
    NextRound(b, 57, 0x78a5636f, 0x7546587c);
    NextRound(b, 58, 0x84c87814, 0x07f54f39);
    NextRound(b, 59, 0x8cc70208, 0xf808ddc3);
    NextRound(b, 60, 0x90befffa, 0xdcca7608);
    NextRound(b, 61, 0xa4506ceb, 0x5e427188);
    NextRound(b, 62, 0xbef9a3f7, 0x44bcec5d);
    NextRound(b, 63, 0xc67178f2, 0x3b5ec49b);
    assert
      Round(Round(Round(Round(
        [0x01638014, 0x2caf58ca, 0x3a0e9477, 0xb1b29c90, 0xadf94e0a, 0xe588e598, 0xfd99936e, 0x43a5def8],
        0x748f82ee, 0x029b7007), 0x78a5636f, 0x7546587c), 0x84c87814, 0x07f54f39), 0x8cc70208, 0xf808ddc3) ==
      [0x04441c0e, 0xe923abc6, 0xe7ec45bc, 0x7ec75212, 0xaaefa044, 0x08e0e6ea, 0xe2a91edc, 0x7951a330];
    assert
      Round(Round(Round(Round(
        [0x04441c0e, 0xe923abc6, 0xe7ec45bc, 0x7ec75212, 0xaaefa044, 0x08e0e6ea, 0xe2a91edc, 0x7951a330],
        0x90befffa, 0xdcca7608), 0xa4506ceb, 0x5e427188), 0xbef9a3f7, 0x44bcec5d), 0xc67178f2, 0x3b5ec49b) ==
      [0x79a6dddb, 0xdd946d8f, 0x5e8d0156, 0xf41fc3ea, 0xd69fef65, 0xc9962ac0, 0x8511bf70, 0x1c71eb3c];
  }

  lemma FinalWords(b: Block)
    requires IsEmptyBlock(b)
    ensures Compress(H0, b) ==
      [0xe3b0c442, 0x98fc1c14, 0x9afbf4c8, 0x996fb924, 0x27ae41e4, 0x649b934c, 0xa495991b, 0x7852b855]
  {
    hide V;
    Rounds7(b);
    Sums(V(b, 64));
    assert Rounds(b, H0, 64) == V(b, 64) by {
      RoundsAreV(b);
    }
  }

  lemma RoundsAreV(b: Block)
    ensures Rounds(b, H0, 64) == V(b, 64)
  {
    hide Rounds;
  }

  lemma Sums(v: Words)
    requires v ==
      [0x79a6dddb, 0xdd946d8f, 0x5e8d0156, 0xf41fc3ea, 0xd69fef65, 0xc9962ac0, 0x8511bf70, 0x1c71eb3c]
    ensures AddWords(H0, v) ==
      [0xe3b0c442, 0x98fc1c14, 0x9afbf4c8, 0x996fb924, 0x27ae41e4, 0x649b934c, 0xa495991b, 0x7852b855]
  {
  }

  lemma BytesInOrder(h: Words)
    ensures DigestBytes(h, 8) ==
      WordBytes(h[0]) + WordBytes(h[1]) + WordBytes(h[2]) + WordBytes(h[3]) +
      WordBytes(h[4]) + WordBytes(h[5]) + WordBytes(h[6]) + WordBytes(h[7])
  {
    hide WordBytes;
    assert DigestBytes(h, 1) == WordBytes(h[0]);
    assert DigestBytes(h, 3) == WordBytes(h[0]) + WordBytes(h[1]) + WordBytes(h[2]);
    assert DigestBytes(h, 5) == DigestBytes(h, 3) + WordBytes(h[3]) + WordBytes(h[4]);
    assert DigestBytes(h, 7) == DigestBytes(h, 5) + WordBytes(h[5]) + WordBytes(h[6]);
  }

  lemma BytesOut(h: Words)
    requires h ==
      [0xe3b0c442, 0x98fc1c14, 0x9afbf4c8, 0x996fb924, 0x27ae41e4, 0x649b934c, 0xa495991b, 0x7852b855]
    ensures DigestBytes(h, 8) == [
      0xe3, 0xb0, 0xc4, 0x42, 0x98, 0xfc, 0x1c, 0x14, 0x9a, 0xfb, 0xf4, 0xc8, 0x99, 0x6f, 0xb9, 0x24,
      0x27, 0xae, 0x41, 0xe4, 0x64, 0x9b, 0x93, 0x4c, 0xa4, 0x95, 0x99, 0x1b, 0x78, 0x52, 0xb8, 0x55]
  {
    BytesInOrder(h);
    hide DigestBytes;
    assert WordBytes(0xe3b0c442) == [0xe3, 0xb0, 0xc4, 0x42];
    assert WordBytes(0x98fc1c14) == [0x98, 0xfc, 0x1c, 0x14];
    assert WordBytes(0x9afbf4c8) == [0x9a, 0xfb, 0xf4, 0xc8];
    assert WordBytes(0x996fb924) == [0x99, 0x6f, 0xb9, 0x24];
    assert WordBytes(0x27ae41e4) == [0x27, 0xae, 0x41, 0xe4];
    assert WordBytes(0x649b934c) == [0x64, 0x9b, 0x93, 0x4c];
    assert WordBytes(0xa495991b) == [0xa4, 0x95, 0x99, 0x1b];
    assert WordBytes(0x7852b855) == [0x78, 0x52, 0xb8, 0x55];
  }

  /** The digest of the empty message. */
  lemma EmptyDigest(m: seq<bv8>)
    requires m == []
    ensures Sha256Digest(m) == [
      0xe3, 0xb0, 0xc4, 0x42, 0x98, 0xfc, 0x1c, 0x14, 0x9a, 0xfb, 0xf4, 0xc8, 0x99, 0x6f, 0xb9, 0x24,
      0x27, 0xae, 0x41, 0xe4, 0x64, 0x9b, 0x93, 0x4c, 0xa4, 0x95, 0x99, 0x1b, 0x78, 0x52, 0xb8, 0x55]
  {
    hide Padded, Hash, Compress, DigestBytes;
    var b: Block := [0x80] + Zeros(63);
    PaddedEmpty(b);
    OneBlock(b);
    FinalWords(b);
    BytesOut(Compress(H0, b));
  }
}
