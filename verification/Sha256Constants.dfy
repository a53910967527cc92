/**
  Where the constants of SHA-256 come from (sections 4.2.2 and 5.3.3 of FIPS 180-4): the first 32 bits of
  the fractional parts of the cube roots, or square roots, of the first primes.
 */
module Sha256Constants {
  import opened Sha256
  import opened Powers

  const PRIMES: seq<nat> :=
    [2, 3, 5, 7, 11, 13, 17, 19] +
    [23, 29, 31, 37, 41, 43, 47, 53] +
    [59, 61, 67, 71, 73, 79, 83, 89] +
    [97, 101, 103, 107, 109, 113, 127, 131] +
    [137, 139, 149, 151, 157, 163, 167, 173] +
    [179, 181, 191, 193, 197, 199, 211, 223] +
    [227, 229, 233, 239, 241, 251, 257, 263] +
    [269, 271, 277, 281, 283, 293, 307, 311]

  predicate IsPrime(p: nat) {
    2 <= p && forall d :: 2 <= d < p ==> p % d != 0
  }

  // ---------------------------------------------------------------- which numbers are prime

  /** No prime up to 17 divides `n`, but for `n` itself. */
  predicate Sieved(n: nat) {
    && (n % 2 != 0 || n == 2) && (n % 3 != 0 || n == 3) && (n % 5 != 0 || n == 5) && (n % 7 != 0 || n == 7)
    && (n % 11 != 0 || n == 11) && (n % 13 != 0 || n == 13) && (n % 17 != 0 || n == 17)
  }

  /** A prime factor of a small number. */
  function Factor(m: nat): (q: nat)
    requires 2 <= m <= 17
    ensures q in {2, 3, 5, 7, 11, 13, 17} && m == q * (m / q)
  {
    if m % 2 == 0 then 2 else if m % 3 == 0 then 3 else m
  }

  lemma SievedBy(p: nat, q: nat)
    requires Sieved(p) && q in {2, 3, 5, 7, 11, 13, 17}
    ensures p % q != 0 || p == q
  {
  }

  lemma Multiple(p: nat, q: nat, c: nat, e: nat)
    requires 0 < q && p == (q * c) * e
    ensures p % q == 0
  {
    assert p == q * (c * e);
    DivisionIs(p, q, c * e, 0);
  }

  lemma NoSmallFactor(p: nat, m: nat, e: nat)
    requires Sieved(p) && p == m * e && 2 <= m <= 17
    ensures e < 2
  {
    var q := Factor(m);
    SievedBy(p, q);
    hide Sieved, Factor;
    Multiple(p, q, m / q, e);
    MulMonotone(q, 1, m / q);
    if 2 <= e {
      MulMonotone(m, 2, e);
    }
  }

  lemma NoDivisor(p: nat, d: nat)
    requires Sieved(p) && 2 <= d < p < 324
    ensures p % d != 0
  {
    hide Sieved;
    var e := p / d;
    if p == d * e {
      if d <= 17 {
        NoSmallFactor(p, d, e);
      } else {
        if 18 <= e {
          MulMonotone(d, 18, e);
        }
        NoSmallFactor(p, e, d);
      }
      assert false;
    }
  }

  /** Below 18 * 18 the sieve finds just the primes. */
  lemma SievedIff(p: nat)
    requires 2 <= p < 324
    ensures IsPrime(p) <==> Sieved(p)
  {
    if Sieved(p) {
      hide Sieved;
      forall d | 2 <= d < p
        ensures p % d != 0
      {
        NoDivisor(p, d);
      }
    }
  }

  /** There is nothing left of the sieve between `p` and `q`. */
  predicate Gap(p: nat, q: nat)
    decreases q - p
  {
    p + 1 >= q || (!Sieved(p + 1) && Gap(p + 1, q))
  }

  lemma {:induction false} InGap(p: nat, q: nat, n: nat)
    requires Gap(p, q) && p < n < q
    ensures !Sieved(n)
    decreases q - p
  {
    if p + 1 < n {
      InGap(p + 1, q, n);
    }
  }

  // ---------------------------------------------------------------- the tables

  function NextPrime(i: nat): nat
    requires i < 64
  {
    if i < 63 then PRIMES[i + 1] else 312
  }

  /** `x` is the whole part of the cube root of `p` in units of 2^-32. */
  predicate CubeRoot(p: nat, x: nat) {
    x * x * x <= p * 0x1_0000_0000_0000_0000_0000_0000 < (x + 1) * (x + 1) * (x + 1)
  }

  predicate SquareRoot(p: nat, x: nat) {
    x * x <= p * 0x1_0000_0000_0000_0000 < (x + 1) * (x + 1)
  }

  /** The number with whole part `n` and the 32 bits `k` behind the point, in units of 2^-32. */
  function Point(n: nat, k: bv32): nat {
    n * 0x1_0000_0000 + k as nat
  }

  /** What there is to say about an entry: `p` is sieved, `next` is the one after it, `x` the root. */
  predicate Entry(p: nat, next: nat, x: nat) {
    p < next && Sieved(p) && Gap(p, next) && CubeRoot(p, x)
  }

  /** The whole part of the cube root of a small number. */
  function Whole(p: nat): nat {
    if p < 1 then 0 else if p < 8 then 1 else if p < 27 then 2 else if p < 64 then 3
    else if p < 125 then 4 else if p < 216 then 5 else 6
  }

  lemma WholeIsRoot(p: nat)
    requires p < 343
    ensures var n := Whole(p); n * n * n <= p < (n + 1) * (n + 1) * (n + 1)
  {
  }

  /** Entry `i` of the tables. */
  predicate Right(i: nat)
    requires i < 64
  {
    PRIMES[i] < 343 && Entry(PRIMES[i], NextPrime(i), Point(Whole(PRIMES[i]), K[i]))
  }

  lemma Entries0()
    ensures Entry(2, 3, 0x1_428a_2f98) && Entry(3, 5, 0x1_7137_4491) && Entry(5, 7, 0x1_b5c0_fbcf) &&
            Entry(7, 11, 0x1_e9b5_dba5) && Entry(11, 13, 0x2_3956_c25b) && Entry(13, 17, 0x2_59f1_11f1) &&
            Entry(17, 19, 0x2_923f_82a4) && Entry(19, 23, 0x2_ab1c_5ed5)
  {
  }

  lemma Values0()
    ensures |PRIMES| == 64 && |K| == 64
    ensures PRIMES[0] == 2 && PRIMES[1] == 3 && PRIMES[2] == 5 && PRIMES[3] == 7 && PRIMES[4] == 11 &&
            PRIMES[5] == 13 && PRIMES[6] == 17 && PRIMES[7] == 19 && PRIMES[8] == 23
    ensures Point(1, K[0]) == 0x1_428a_2f98 && Point(1, K[1]) == 0x1_7137_4491 && Point(1, K[2]) == 0x1_b5c0_fbcf &&
            Point(1, K[3]) == 0x1_e9b5_dba5 && Point(2, K[4]) == 0x2_3956_c25b && Point(2, K[5]) == 0x2_59f1_11f1 &&
            Point(2, K[6]) == 0x2_923f_82a4 && Point(2, K[7]) == 0x2_ab1c_5ed5
  {
  }

  lemma Row0()
    ensures forall i :: 0 <= i < 8 ==> Right(i)
  {
    hide K, PRIMES, Entry, Point;
    Entries0();
    Values0();
    assert Right(0) && Right(1) && Right(2) && Right(3) && Right(4) && Right(5) && Right(6) && Right(7);
  }

  lemma Entries1()
    ensures Entry(23, 29, 0x2_d807_aa98) && Entry(29, 31, 0x3_1283_5b01) && Entry(31, 37, 0x3_2431_85be) &&
            Entry(37, 41, 0x3_550c_7dc3) && Entry(41, 43, 0x3_72be_5d74) && Entry(43, 47, 0x3_80de_b1fe) &&
            Entry(47, 53, 0x3_9bdc_06a7) && Entry(53, 59, 0x3_c19b_f174)
  {
  }

  lemma Values1()
    ensures |PRIMES| == 64 && |K| == 64
    ensures PRIMES[8] == 23 && PRIMES[9] == 29 && PRIMES[10] == 31 && PRIMES[11] == 37 && PRIMES[12] == 41 &&
            PRIMES[13] == 43 && PRIMES[14] == 47 && PRIMES[15] == 53 && PRIMES[16] == 59
    ensures Point(2, K[8]) == 0x2_d807_aa98 && Point(3, K[9]) == 0x3_1283_5b01 && Point(3, K[10]) == 0x3_2431_85be &&
            Point(3, K[11]) == 0x3_550c_7dc3 && Point(3, K[12]) == 0x3_72be_5d74 &&
            Point(3, K[13]) == 0x3_80de_b1fe && Point(3, K[14]) == 0x3_9bdc_06a7 && Point(3, K[15]) == 0x3_c19b_f174
  {
  }

  lemma Row1()
    ensures forall i :: 8 <= i < 16 ==> Right(i)
  {
    hide K, PRIMES, Entry, Point;
    Entries1();
    Values1();
    assert Right(8) && Right(9) && Right(10) && Right(11) && Right(12) && Right(13) && Right(14) && Right(15);
  }

  lemma Entries2()
    ensures Entry(59, 61, 0x3_e49b_69c1) && Entry(61, 67, 0x3_efbe_4786) && Entry(67, 71, 0x4_0fc1_9dc6) &&
            Entry(71, 73, 0x4_240c_a1cc) && Entry(73, 79, 0x4_2de9_2c6f) && Entry(79, 83, 0x4_4a74_84aa) &&
            Entry(83, 89, 0x4_5cb0_a9dc) && Entry(89, 97, 0x4_76f9_88da)
  {
  }

  lemma Values2()
    ensures |PRIMES| == 64 && |K| == 64
    ensures PRIMES[16] == 59 && PRIMES[17] == 61 && PRIMES[18] == 67 && PRIMES[19] == 71 && PRIMES[20] == 73 &&
            PRIMES[21] == 79 && PRIMES[22] == 83 && PRIMES[23] == 89 && PRIMES[24] == 97
    ensures Point(3, K[16]) == 0x3_e49b_69c1 && Point(3, K[17]) == 0x3_efbe_4786 &&
            Point(4, K[18]) == 0x4_0fc1_9dc6 && Point(4, K[19]) == 0x4_240c_a1cc &&
            Point(4, K[20]) == 0x4_2de9_2c6f && Point(4, K[21]) == 0x4_4a74_84aa &&
            Point(4, K[22]) == 0x4_5cb0_a9dc && Point(4, K[23]) == 0x4_76f9_88da
  {
  }

  lemma Row2()
    ensures forall i :: 16 <= i < 24 ==> Right(i)
  {
    hide K, PRIMES, Entry, Point;
    Entries2();
    Values2();
    assert Right(16) && Right(17) && Right(18) && Right(19) && Right(20) && Right(21) && Right(22) && Right(23);
  }

  lemma Entries3()
    ensures Entry(97, 101, 0x4_983e_5152) && Entry(101, 103, 0x4_a831_c66d) && Entry(103, 107, 0x4_b003_27c8) &&
            Entry(107, 109, 0x4_bf59_7fc7) && Entry(109, 113, 0x4_c6e0_0bf3) && Entry(113, 127, 0x4_d5a7_9147) &&
            Entry(127, 131, 0x5_06ca_6351) && Entry(131, 137, 0x5_1429_2967)
  {
  }

  lemma Values3()
    ensures |PRIMES| == 64 && |K| == 64
    ensures PRIMES[24] == 97 && PRIMES[25] == 101 && PRIMES[26] == 103 && PRIMES[27] == 107 && PRIMES[28] == 109 &&
            PRIMES[29] == 113 && PRIMES[30] == 127 && PRIMES[31] == 131 && PRIMES[32] == 137
    ensures Point(4, K[24]) == 0x4_983e_5152 && Point(4, K[25]) == 0x4_a831_c66d &&
            Point(4, K[26]) == 0x4_b003_27c8 && Point(4, K[27]) == 0x4_bf59_7fc7 &&
            Point(4, K[28]) == 0x4_c6e0_0bf3 && Point(4, K[29]) == 0x4_d5a7_9147 &&
            Point(5, K[30]) == 0x5_06ca_6351 && Point(5, K[31]) == 0x5_1429_2967
  {
  }

  lemma Row3()
    ensures forall i :: 24 <= i < 32 ==> Right(i)
  {
    hide K, PRIMES, Entry, Point;
    Entries3();
    Values3();
    assert Right(24) && Right(25) && Right(26) && Right(27) && Right(28) && Right(29) && Right(30) && Right(31);
  }

  lemma Entries4()
    ensures Entry(137, 139, 0x5_27b7_0a85) && Entry(139, 149, 0x5_2e1b_2138) && Entry(149, 151, 0x5_4d2c_6dfc) &&
            Entry(151, 157, 0x5_5338_0d13) && Entry(157, 163, 0x5_650a_7354) && Entry(163, 167, 0x5_766a_0abb) &&
            Entry(167, 173, 0x5_81c2_c92e) && Entry(173, 179, 0x5_9272_2c85)
  {
  }

  lemma Values4()
    ensures |PRIMES| == 64 && |K| == 64
    ensures PRIMES[32] == 137 && PRIMES[33] == 139 && PRIMES[34] == 149 && PRIMES[35] == 151 && PRIMES[36] == 157 &&
            PRIMES[37] == 163 && PRIMES[38] == 167 && PRIMES[39] == 173 && PRIMES[40] == 179
    ensures Point(5, K[32]) == 0x5_27b7_0a85 && Point(5, K[33]) == 0x5_2e1b_2138 &&
            Point(5, K[34]) == 0x5_4d2c_6dfc && Point(5, K[35]) == 0x5_5338_0d13 &&
            Point(5, K[36]) == 0x5_650a_7354 && Point(5, K[37]) == 0x5_766a_0abb &&
            Point(5, K[38]) == 0x5_81c2_c92e && Point(5, K[39]) == 0x5_9272_2c85
  {
  }

  lemma Row4()
    ensures forall i :: 32 <= i < 40 ==> Right(i)
  {
    hide K, PRIMES, Entry, Point;
    Entries4();
    Values4();
    assert Right(32) && Right(33) && Right(34) && Right(35) && Right(36) && Right(37) && Right(38) && Right(39);
  }

  lemma Entries5()
    ensures Entry(179, 181, 0x5_a2bf_e8a1) && Entry(181, 191, 0x5_a81a_664b) && Entry(191, 193, 0x5_c24b_8b70) &&
            Entry(193, 197, 0x5_c76c_51a3) && Entry(197, 199, 0x5_d192_e819) && Entry(199, 211, 0x5_d699_0624) &&
            Entry(211, 223, 0x5_f40e_3585) && Entry(223, 227, 0x6_106a_a070)
  {
  }

  lemma Values5()
    ensures |PRIMES| == 64 && |K| == 64
    ensures PRIMES[40] == 179 && PRIMES[41] == 181 && PRIMES[42] == 191 && PRIMES[43] == 193 && PRIMES[44] == 197 &&
            PRIMES[45] == 199 && PRIMES[46] == 211 && PRIMES[47] == 223 && PRIMES[48] == 227
    ensures Point(5, K[40]) == 0x5_a2bf_e8a1 && Point(5, K[41]) == 0x5_a81a_664b &&
            Point(5, K[42]) == 0x5_c24b_8b70 && Point(5, K[43]) == 0x5_c76c_51a3 &&
            Point(5, K[44]) == 0x5_d192_e819 && Point(5, K[45]) == 0x5_d699_0624 &&
            Point(5, K[46]) == 0x5_f40e_3585 && Point(6, K[47]) == 0x6_106a_a070
  {
  }

  lemma Row5()
    ensures forall i :: 40 <= i < 48 ==> Right(i)
  {
    hide K, PRIMES, Entry, Point;
    Entries5();
    Values5();
    assert Right(40) && Right(41) && Right(42) && Right(43) && Right(44) && Right(45) && Right(46) && Right(47);
  }

  lemma Entries6()
    ensures Entry(227, 229, 0x6_19a4_c116) && Entry(229, 233, 0x6_1e37_6c08) && Entry(233, 239, 0x6_2748_774c) &&
            Entry(239, 241, 0x6_34b0_bcb5) && Entry(241, 251, 0x6_391c_0cb3) && Entry(251, 257, 0x6_4ed8_aa4a) &&
            Entry(257, 263, 0x6_5b9c_ca4f) && Entry(263, 269, 0x6_682e_6ff3)
  {
  }

  lemma Values6()
    ensures |PRIMES| == 64 && |K| == 64
    ensures PRIMES[48] == 227 && PRIMES[49] == 229 && PRIMES[50] == 233 && PRIMES[51] == 239 && PRIMES[52] == 241 &&
            PRIMES[53] == 251 && PRIMES[54] == 257 && PRIMES[55] == 263 && PRIMES[56] == 269
    ensures Point(6, K[48]) == 0x6_19a4_c116 && Point(6, K[49]) == 0x6_1e37_6c08 &&
            Point(6, K[50]) == 0x6_2748_774c && Point(6, K[51]) == 0x6_34b0_bcb5 &&
            Point(6, K[52]) == 0x6_391c_0cb3 && Point(6, K[53]) == 0x6_4ed8_aa4a &&
            Point(6, K[54]) == 0x6_5b9c_ca4f && Point(6, K[55]) == 0x6_682e_6ff3
  {
  }

  lemma Row6()
    ensures forall i :: 48 <= i < 56 ==> Right(i)
  {
    hide K, PRIMES, Entry, Point;
    Entries6();
    Values6();
    assert Right(48) && Right(49) && Right(50) && Right(51) && Right(52) && Right(53) && Right(54) && Right(55);
  }

  lemma Entries7()
    ensures Entry(269, 271, 0x6_748f_82ee) && Entry(271, 277, 0x6_78a5_636f) && Entry(277, 281, 0x6_84c8_7814) &&
            Entry(281, 283, 0x6_8cc7_0208) && Entry(283, 293, 0x6_90be_fffa) && Entry(293, 307, 0x6_a450_6ceb) &&
            Entry(307, 311, 0x6_bef9_a3f7) && Entry(311, 312, 0x6_c671_78f2)
  {
  }

  lemma Values7()
    ensures |PRIMES| == 64 && |K| == 64
    ensures PRIMES[56] == 269 && PRIMES[57] == 271 && PRIMES[58] == 277 && PRIMES[59] == 281 && PRIMES[60] == 283 &&
            PRIMES[61] == 293 && PRIMES[62] == 307 && PRIMES[63] == 311
    ensures Point(6, K[56]) == 0x6_748f_82ee && Point(6, K[57]) == 0x6_78a5_636f &&
            Point(6, K[58]) == 0x6_84c8_7814 && Point(6, K[59]) == 0x6_8cc7_0208 &&
            Point(6, K[60]) == 0x6_90be_fffa && Point(6, K[61]) == 0x6_a450_6ceb &&
            Point(6, K[62]) == 0x6_bef9_a3f7 && Point(6, K[63]) == 0x6_c671_78f2
  {
  }

  lemma Row7()
    ensures forall i :: 56 <= i < 64 ==> Right(i)
  {
    hide K, PRIMES, Entry, Point;
    Entries7();
    Values7();
    assert Right(56) && Right(57) && Right(58) && Right(59) && Right(60) && Right(61) && Right(62) && Right(63);
  }

  lemma AllRight(i: nat)
    requires i < 64
    ensures Right(i)
  {
    hide Right;
    Row0();
    Row1();
    Row2();
    Row3();
    Row4();
    Row5();
    Row6();
    Row7();
  }

  lemma {:induction false} Locate(n: nat, i: nat) returns (j: nat)
    requires i < 64 && PRIMES[i] <= n < 312
    ensures j < 64 && PRIMES[j] <= n < NextPrime(j)
    decreases 64 - i
  {
    hide PRIMES;
    if n < NextPrime(i) {
      j := i;
    } else {
      j := Locate(n, i + 1);
    }
  }

  lemma StartsWithTwo()
    ensures |PRIMES| == 64 && PRIMES[0] == 2
  {
  }

  lemma SmallIsNotPrime(n: nat)
    requires n < 2
    ensures !IsPrime(n)
  {
  }

  lemma {:induction false} TableIsPrime(k: nat)
    requires k < 64
    ensures |PRIMES| == 64 && IsPrime(PRIMES[k]) && 2 <= PRIMES[k] < 312
  {
    StartsWithTwo();
    hide PRIMES, Sieved, CubeRoot, IsPrime, K;
    AtLeast(k);
    AtMost(k);
    AllRight(k);
    SievedIff(PRIMES[k]);
  }

  lemma {:induction false} AtLeast(k: nat)
    requires k < 64
    ensures |PRIMES| == 64 && 2 <= PRIMES[k]
    decreases k
  {
    StartsWithTwo();
    if 0 < k {
      hide PRIMES;
      AtLeast(k - 1);
      Increases(k - 1);
    }
  }

  lemma {:induction false} AtMost(k: nat)
    requires k < 64
    ensures |PRIMES| == 64 && PRIMES[k] < 312
    decreases 64 - k
  {
    StartsWithTwo();
    hide PRIMES;
    Increases(k);
    if k < 63 {
      AtMost(k + 1);
    }
  }

  lemma Increases(i: nat)
    requires i < 64
    ensures |PRIMES| == 64 && PRIMES[i] < NextPrime(i)
  {
    StartsWithTwo();
    hide Sieved, CubeRoot, Gap, PRIMES, K, NextPrime;
    AllRight(i);
  }

  /** The table lists the primes up to 311: every one of them, in order, and nothing else. */
  lemma PrimesAreTheFirst(n: nat, i: nat)
    ensures n < 312 ==> (IsPrime(n) <==> n in PRIMES)
    ensures i < 63 ==> PRIMES[i] < PRIMES[i + 1]
  {
    StartsWithTwo();
    hide PRIMES, Sieved, CubeRoot, IsPrime;
    if i < 63 {
      Increases(i);
    }
    if n in PRIMES {
      var k :| 0 <= k < |PRIMES| && PRIMES[k] == n;
      TableIsPrime(k);
    } else if 2 <= n < 312 {
      SievedIff(n);
      var j := Locate(n, 0);
      AllRight(j);
      InGap(PRIMES[j], NextPrime(j), n);
    } else if n < 2 {
      SmallIsNotPrime(n);
    }
  }

  /** Section 4.2.2: constant `i` is what the cube root of the prime number `i` has behind its point. */
  lemma RoundConstants(i: nat)
    requires i < 64
    ensures var p := PRIMES[i]; var n := Whole(p);
      n * n * n <= p < (n + 1) * (n + 1) * (n + 1) && CubeRoot(p, Point(n, K[i]))
  {
    StartsWithTwo();
    hide CubeRoot, Point, PRIMES, K, Whole;
    AllRight(i);
    WholeIsRoot(PRIMES[i]);
  }

  /** Section 5.3.3: the initial hash value likewise, from square roots. */
  lemma InitialHashValue(i: nat) returns (n: nat)
    requires i < 8
    ensures SquareRoot(PRIMES[i], Point(n, H0[i]))
  {
    assert PRIMES[0] == 2 && PRIMES[1] == 3 && PRIMES[2] == 5 && PRIMES[3] == 7 && PRIMES[4] == 11 &&
           PRIMES[5] == 13 && PRIMES[6] == 17 && PRIMES[7] == 19;
    assert H0[0] as nat == 0x6a09e667 && H0[1] as nat == 0xbb67ae85 && H0[2] as nat == 0x3c6ef372 &&
           H0[3] as nat == 0xa54ff53a && H0[4] as nat == 0x510e527f && H0[5] as nat == 0x9b05688c &&
           H0[6] as nat == 0x1f83d9ab && H0[7] as nat == 0x5be0cd19;
    hide PRIMES, H0;
    assert SquareRoot(2, 1 * 0x1_0000_0000 + 0x6a09e667) && SquareRoot(3, 1 * 0x1_0000_0000 + 0xbb67ae85) &&
           SquareRoot(5, 2 * 0x1_0000_0000 + 0x3c6ef372) && SquareRoot(7, 2 * 0x1_0000_0000 + 0xa54ff53a) &&
           SquareRoot(11, 3 * 0x1_0000_0000 + 0x510e527f) && SquareRoot(13, 3 * 0x1_0000_0000 + 0x9b05688c) &&
           SquareRoot(17, 4 * 0x1_0000_0000 + 0x1f83d9ab) && SquareRoot(19, 4 * 0x1_0000_0000 + 0x5be0cd19);
    n := [1, 1, 2, 2, 3, 3, 4, 4][i];
  }
}
