/** What the building blocks of SHA-256 are, said without their formulas: choice and majority, the
    sigmas by the places they draw on, words as big-endian bytes, the constants as roots of primes,
    and a round in terms of any words with these properties (sections 4.1.2, 4.2.2, 5.1.1, 5.3.2
    and 6.2 of FIPS 180-2). */
module Sha256Laws {

  import opened Bits
  import opened Sha256Spec

  // ----- Choice and majority -----

  /** Ch takes the bits of y where x has a one, and those of z elsewhere. */
  lemma ChChooses(x: Word, y: Word, z: Word)
    ensures x & Ch(x, y, z) == x & y
    ensures !x & Ch(x, y, z) == !x & z
  {
  }

  /** Only one word does. */
  lemma ChDetermined(x: Word, y: Word, z: Word, c: Word)
    requires x & c == x & y && !x & c == !x & z
    ensures c == Ch(x, y, z)
  {
  }

  /** Maj: where z has a one, one of x and y suffices; elsewhere both are needed. */
  lemma MajDecides(x: Word, y: Word, z: Word)
    ensures z & Maj(x, y, z) == z & (x | y)
    ensures !z & Maj(x, y, z) == !z & (x & y)
  {
  }

  lemma MajDetermined(x: Word, y: Word, z: Word, m: Word)
    requires z & m == z & (x | y) && !z & m == !z & (x & y)
    ensures m == Maj(x, y, z)
  {
  }

  // ----- The sigmas -----

  /** Rotation by so many places, step by step. */
  lemma RotationsTo7(w: Word)
    ensures Rotate(w, 2) == (w >> 2) | (w << 30)
    ensures Rotate(w, 6) == (w >> 6) | (w << 26)
    ensures Rotate(w, 7) == (w >> 7) | (w << 25)
  {
    assert Rotate(w, 1) == (w >> 1) | (w << 31);
    assert Rotate(w, 2) == (w >> 2) | (w << 30);
    assert Rotate(w, 3) == (w >> 3) | (w << 29);
    assert Rotate(w, 4) == (w >> 4) | (w << 28);
    assert Rotate(w, 5) == (w >> 5) | (w << 27);
    assert Rotate(w, 6) == (w >> 6) | (w << 26);
    assert Rotate(w, 7) == (w >> 7) | (w << 25);
  }

  lemma RotationsTo13(w: Word)
    ensures Rotate(w, 11) == (w >> 11) | (w << 21)
    ensures Rotate(w, 13) == (w >> 13) | (w << 19)
  {
    RotationsTo7(w);
    assert Rotate(w, 8) == (w >> 8) | (w << 24);
    assert Rotate(w, 9) == (w >> 9) | (w << 23);
    assert Rotate(w, 10) == (w >> 10) | (w << 22);
    assert Rotate(w, 11) == (w >> 11) | (w << 21);
    assert Rotate(w, 12) == (w >> 12) | (w << 20);
    assert Rotate(w, 13) == (w >> 13) | (w << 19);
  }

  lemma RotationsTo19(w: Word)
    ensures Rotate(w, 17) == (w >> 17) | (w << 15)
    ensures Rotate(w, 18) == (w >> 18) | (w << 14)
    ensures Rotate(w, 19) == (w >> 19) | (w << 13)
  {
    RotationsTo13(w);
    assert Rotate(w, 14) == (w >> 14) | (w << 18);
    assert Rotate(w, 15) == (w >> 15) | (w << 17);
    assert Rotate(w, 16) == (w >> 16) | (w << 16);
    assert Rotate(w, 17) == (w >> 17) | (w << 15);
    assert Rotate(w, 18) == (w >> 18) | (w << 14);
    assert Rotate(w, 19) == (w >> 19) | (w << 13);
  }

  lemma RotationsTo25(w: Word)
    ensures Rotate(w, 22) == (w >> 22) | (w << 10)
    ensures Rotate(w, 25) == (w >> 25) | (w << 7)
  {
    RotationsTo19(w);
    assert Rotate(w, 20) == (w >> 20) | (w << 12);
    assert Rotate(w, 21) == (w >> 21) | (w << 11);
    assert Rotate(w, 22) == (w >> 22) | (w << 10);
    assert Rotate(w, 23) == (w >> 23) | (w << 9);
    assert Rotate(w, 24) == (w >> 24) | (w << 8);
    assert Rotate(w, 25) == (w >> 25) | (w << 7);
  }

  lemma Rotations(w: Word)
    ensures Rotate(w, 2) == (w >> 2) | (w << 30)
    ensures Rotate(w, 6) == (w >> 6) | (w << 26)
    ensures Rotate(w, 7) == (w >> 7) | (w << 25)
    ensures Rotate(w, 11) == (w >> 11) | (w << 21)
    ensures Rotate(w, 13) == (w >> 13) | (w << 19)
    ensures Rotate(w, 17) == (w >> 17) | (w << 15)
    ensures Rotate(w, 18) == (w >> 18) | (w << 14)
    ensures Rotate(w, 19) == (w >> 19) | (w << 13)
    ensures Rotate(w, 22) == (w >> 22) | (w << 10)
    ensures Rotate(w, 25) == (w >> 25) | (w << 7)
  {
    hide Rotate;
    RotationsTo7(w);
    RotationsTo13(w);
    RotationsTo19(w);
    RotationsTo25(w);
  }

  /** Bit k of a sigma is the parity of three bits of the word, counted around it. */
  lemma BigSigma0Bit(w: Word, k: nat)
    requires k < 32
    ensures Bit(BigSigma0(w), k)
         == ((Bit(w, (k + 2) % 32) != Bit(w, (k + 13) % 32)) != Bit(w, (k + 22) % 32))
  {
    hide Bit, Rotate;
    BigSigma0Parts(w, k);
    Rotations(w);
    RotateBit(w, 2, k);
    RotateBit(w, 13, k);
    RotateBit(w, 22, k);
  }

  lemma BigSigma0Parts(w: Word, k: nat)
    ensures Bit(BigSigma0(w), k)
         == ((Bit((w >> 2) | (w << 30), k) != Bit((w >> 13) | (w << 19), k)) != Bit((w >> 22) | (w << 10), k))
  {
    hide Bit;
    XorBit(k);
    assert Bit(((w >> 2) | (w << 30)) ^ ((w >> 13) | (w << 19)), k) == (Bit((w >> 2) | (w << 30), k) != Bit((w >> 13) | (w << 19), k));
    assert Bit(((w >> 2) | (w << 30)) ^ ((w >> 13) | (w << 19)) ^ ((w >> 22) | (w << 10)), k)
        == ((Bit((w >> 2) | (w << 30), k) != Bit((w >> 13) | (w << 19), k)) != Bit((w >> 22) | (w << 10), k));
  }

  lemma BigSigma1Bit(w: Word, k: nat)
    requires k < 32
    ensures Bit(BigSigma1(w), k)
         == ((Bit(w, (k + 6) % 32) != Bit(w, (k + 11) % 32)) != Bit(w, (k + 25) % 32))
  {
    hide Bit, Rotate;
    BigSigma1Parts(w, k);
    Rotations(w);
    RotateBit(w, 6, k);
    RotateBit(w, 11, k);
    RotateBit(w, 25, k);
  }

  lemma BigSigma1Parts(w: Word, k: nat)
    ensures Bit(BigSigma1(w), k)
         == ((Bit((w >> 6) | (w << 26), k) != Bit((w >> 11) | (w << 21), k)) != Bit((w >> 25) | (w << 7), k))
  {
    hide Bit;
    XorBit(k);
    assert Bit(((w >> 6) | (w << 26)) ^ ((w >> 11) | (w << 21)), k) == (Bit((w >> 6) | (w << 26), k) != Bit((w >> 11) | (w << 21), k));
    assert Bit(((w >> 6) | (w << 26)) ^ ((w >> 11) | (w << 21)) ^ ((w >> 25) | (w << 7)), k)
        == ((Bit((w >> 6) | (w << 26), k) != Bit((w >> 11) | (w << 21), k)) != Bit((w >> 25) | (w << 7), k));
  }

  /** In the small sigmas the third place does not wrap around. */
  lemma SmallSigma0Bit(w: Word, k: nat)
    requires k < 32
    ensures Bit(SmallSigma0(w), k)
         == ((Bit(w, (k + 7) % 32) != Bit(w, (k + 18) % 32)) != (k + 3 < 32 && Bit(w, k + 3)))
  {
    hide Bit, Rotate;
    SmallSigma0Parts(w, k);
    Rotations(w);
    RotateBit(w, 7, k);
    RotateBit(w, 18, k);
    ShiftedBit3(w, k);
  }

  lemma SmallSigma0Parts(w: Word, k: nat)
    ensures Bit(SmallSigma0(w), k)
         == ((Bit((w >> 7) | (w << 25), k) != Bit((w >> 18) | (w << 14), k)) != Bit(w >> 3, k))
  {
    hide Bit;
    XorBit(k);
    assert Bit(((w >> 7) | (w << 25)) ^ ((w >> 18) | (w << 14)), k) == (Bit((w >> 7) | (w << 25), k) != Bit((w >> 18) | (w << 14), k));
    assert Bit(((w >> 7) | (w << 25)) ^ ((w >> 18) | (w << 14)) ^ (w >> 3), k)
        == ((Bit((w >> 7) | (w << 25), k) != Bit((w >> 18) | (w << 14), k)) != Bit(w >> 3, k));
  }

  lemma SmallSigma1Bit(w: Word, k: nat)
    requires k < 32
    ensures Bit(SmallSigma1(w), k)
         == ((Bit(w, (k + 17) % 32) != Bit(w, (k + 19) % 32)) != (k + 10 < 32 && Bit(w, k + 10)))
  {
    hide Bit, Rotate;
    SmallSigma1Parts(w, k);
    Rotations(w);
    RotateBit(w, 17, k);
    RotateBit(w, 19, k);
    ShiftedBit10(w, k);
  }

  lemma SmallSigma1Parts(w: Word, k: nat)
    ensures Bit(SmallSigma1(w), k)
         == ((Bit((w >> 17) | (w << 15), k) != Bit((w >> 19) | (w << 13), k)) != Bit(w >> 10, k))
  {
    hide Bit;
    XorBit(k);
    assert Bit(((w >> 17) | (w << 15)) ^ ((w >> 19) | (w << 13)), k) == (Bit((w >> 17) | (w << 15), k) != Bit((w >> 19) | (w << 13), k));
    assert Bit(((w >> 17) | (w << 15)) ^ ((w >> 19) | (w << 13)) ^ (w >> 10), k)
        == ((Bit((w >> 17) | (w << 15), k) != Bit((w >> 19) | (w << 13), k)) != Bit(w >> 10, k));
  }

  lemma ShiftedBit3(w: Word, k: nat)
    ensures Bit(w >> 3, k) == (k + 3 < 32 && Bit(w, k + 3))
  {
    hide Bit;
    assert (w >> 1) >> 2 == w >> 3;
    BitAbove2(w >> 1, k);
    BitAbove1(w, k + 2);
    if k + 3 >= 32 {
      BitAbove32(w, k + 3 - 32);
    }
  }

  lemma ShiftedBit10(w: Word, k: nat)
    ensures Bit(w >> 10, k) == (k + 10 < 32 && Bit(w, k + 10))
  {
    hide Bit;
    assert (w >> 2) >> 8 == w >> 10;
    BitAbove8(w >> 2, k);
    BitAbove2(w, k + 8);
    if k + 10 >= 32 {
      BitAbove32(w, k + 10 - 32);
    }
  }

  // ----- Words and bytes -----

  /** The two conversions between words and big-endian bytes undo each other. */
  lemma WordOfBytes(a: Byte, b: Byte, c: Byte, d: Byte)
    ensures WordBytes(BigEndian(a, b, c, d)) == [a, b, c, d]
    ensures BigEndian(0, 0, 0, d) == d as Word
    ensures BigEndian(a, b, c, d) >> 8 == BigEndian(0, a, b, c)
  {
  }

  lemma BytesOfWord(w: Word)
    ensures var s := WordBytes(w); BigEndian(s[0], s[1], s[2], s[3]) == w
  {
  }

  // ----- The constants -----

  /** n is the cube root of p, scaled by 2^32 and rounded down. */
  predicate CubeRoot(p: nat, n: nat) {
    n * n * n <= p * 0x1_0000_0000_0000_0000_0000_0000 < (n + 1) * (n + 1) * (n + 1)
  }

  predicate SquareRoot(p: nat, n: nat) {
    n * n <= p * 0x1_0000_0000_0000_0000 < (n + 1) * (n + 1)
  }

  /** The round constants are the first 32 bits of the fractions of the cube roots of the first 64
      primes, in order. */
  lemma RoundConstants0()
    ensures CubeRoot(2, 0x1_428a2f98) && K(0) == 0x428a2f98
    ensures CubeRoot(3, 0x1_71374491) && K(1) == 0x71374491
    ensures CubeRoot(5, 0x1_b5c0fbcf) && K(2) == 0xb5c0fbcf
    ensures CubeRoot(7, 0x1_e9b5dba5) && K(3) == 0xe9b5dba5
    ensures CubeRoot(11, 0x2_3956c25b) && K(4) == 0x3956c25b
    ensures CubeRoot(13, 0x2_59f111f1) && K(5) == 0x59f111f1
    ensures CubeRoot(17, 0x2_923f82a4) && K(6) == 0x923f82a4
    ensures CubeRoot(19, 0x2_ab1c5ed5) && K(7) == 0xab1c5ed5
    ensures CubeRoot(23, 0x2_d807aa98) && K(8) == 0xd807aa98
    ensures CubeRoot(29, 0x3_12835b01) && K(9) == 0x12835b01
    ensures CubeRoot(31, 0x3_243185be) && K(10) == 0x243185be
    ensures CubeRoot(37, 0x3_550c7dc3) && K(11) == 0x550c7dc3
    ensures CubeRoot(41, 0x3_72be5d74) && K(12) == 0x72be5d74
    ensures CubeRoot(43, 0x3_80deb1fe) && K(13) == 0x80deb1fe
    ensures CubeRoot(47, 0x3_9bdc06a7) && K(14) == 0x9bdc06a7
    ensures CubeRoot(53, 0x3_c19bf174) && K(15) == 0xc19bf174
  {
  }

  lemma RoundConstants1()
    ensures CubeRoot(59, 0x3_e49b69c1) && K(16) == 0xe49b69c1
    ensures CubeRoot(61, 0x3_efbe4786) && K(17) == 0xefbe4786
    ensures CubeRoot(67, 0x4_0fc19dc6) && K(18) == 0x0fc19dc6
    ensures CubeRoot(71, 0x4_240ca1cc) && K(19) == 0x240ca1cc
    ensures CubeRoot(73, 0x4_2de92c6f) && K(20) == 0x2de92c6f
    ensures CubeRoot(79, 0x4_4a7484aa) && K(21) == 0x4a7484aa
    ensures CubeRoot(83, 0x4_5cb0a9dc) && K(22) == 0x5cb0a9dc
    ensures CubeRoot(89, 0x4_76f988da) && K(23) == 0x76f988da
    ensures CubeRoot(97, 0x4_983e5152) && K(24) == 0x983e5152
    ensures CubeRoot(101, 0x4_a831c66d) && K(25) == 0xa831c66d
    ensures CubeRoot(103, 0x4_b00327c8) && K(26) == 0xb00327c8
    ensures CubeRoot(107, 0x4_bf597fc7) && K(27) == 0xbf597fc7
    ensures CubeRoot(109, 0x4_c6e00bf3) && K(28) == 0xc6e00bf3
    ensures CubeRoot(113, 0x4_d5a79147) && K(29) == 0xd5a79147
    ensures CubeRoot(127, 0x5_06ca6351) && K(30) == 0x06ca6351
    ensures CubeRoot(131, 0x5_14292967) && K(31) == 0x14292967
  {
  }

  lemma RoundConstants2()
    ensures CubeRoot(137, 0x5_27b70a85) && K(32) == 0x27b70a85
    ensures CubeRoot(139, 0x5_2e1b2138) && K(33) == 0x2e1b2138
    ensures CubeRoot(149, 0x5_4d2c6dfc) && K(34) == 0x4d2c6dfc
    ensures CubeRoot(151, 0x5_53380d13) && K(35) == 0x53380d13
    ensures CubeRoot(157, 0x5_650a7354) && K(36) == 0x650a7354
    ensures CubeRoot(163, 0x5_766a0abb) && K(37) == 0x766a0abb
    ensures CubeRoot(167, 0x5_81c2c92e) && K(38) == 0x81c2c92e
    ensures CubeRoot(173, 0x5_92722c85) && K(39) == 0x92722c85
    ensures CubeRoot(179, 0x5_a2bfe8a1) && K(40) == 0xa2bfe8a1
    ensures CubeRoot(181, 0x5_a81a664b) && K(41) == 0xa81a664b
    ensures CubeRoot(191, 0x5_c24b8b70) && K(42) == 0xc24b8b70
    ensures CubeRoot(193, 0x5_c76c51a3) && K(43) == 0xc76c51a3
    ensures CubeRoot(197, 0x5_d192e819) && K(44) == 0xd192e819
    ensures CubeRoot(199, 0x5_d6990624) && K(45) == 0xd6990624
    ensures CubeRoot(211, 0x5_f40e3585) && K(46) == 0xf40e3585
    ensures CubeRoot(223, 0x6_106aa070) && K(47) == 0x106aa070
  {
  }

  lemma RoundConstants3()
    ensures CubeRoot(227, 0x6_19a4c116) && K(48) == 0x19a4c116
    ensures CubeRoot(229, 0x6_1e376c08) && K(49) == 0x1e376c08
    ensures CubeRoot(233, 0x6_2748774c) && K(50) == 0x2748774c
    ensures CubeRoot(239, 0x6_34b0bcb5) && K(51) == 0x34b0bcb5
    ensures CubeRoot(241, 0x6_391c0cb3) && K(52) == 0x391c0cb3
    ensures CubeRoot(251, 0x6_4ed8aa4a) && K(53) == 0x4ed8aa4a
    ensures CubeRoot(257, 0x6_5b9cca4f) && K(54) == 0x5b9cca4f
    ensures CubeRoot(263, 0x6_682e6ff3) && K(55) == 0x682e6ff3
    ensures CubeRoot(269, 0x6_748f82ee) && K(56) == 0x748f82ee
    ensures CubeRoot(271, 0x6_78a5636f) && K(57) == 0x78a5636f
    ensures CubeRoot(277, 0x6_84c87814) && K(58) == 0x84c87814
    ensures CubeRoot(281, 0x6_8cc70208) && K(59) == 0x8cc70208
    ensures CubeRoot(283, 0x6_90befffa) && K(60) == 0x90befffa
    ensures CubeRoot(293, 0x6_a4506ceb) && K(61) == 0xa4506ceb
    ensures CubeRoot(307, 0x6_bef9a3f7) && K(62) == 0xbef9a3f7
    ensures CubeRoot(311, 0x6_c67178f2) && K(63) == 0xc67178f2
  {
  }

  /** The initial hash value: the same of the square roots of the first eight. */
  lemma InitialHash()
    ensures SquareRoot(2, 0x1_6a09e667) && H0.a == 0x6a09e667
    ensures SquareRoot(3, 0x1_bb67ae85) && H0.b == 0xbb67ae85
    ensures SquareRoot(5, 0x2_3c6ef372) && H0.c == 0x3c6ef372
    ensures SquareRoot(7, 0x2_a54ff53a) && H0.d == 0xa54ff53a
    ensures SquareRoot(11, 0x3_510e527f) && H0.e == 0x510e527f
    ensures SquareRoot(13, 0x3_9b05688c) && H0.f == 0x9b05688c
    ensures SquareRoot(17, 0x4_1f83d9ab) && H0.g == 0x1f83d9ab
    ensures SquareRoot(19, 0x4_5be0cd19) && H0.h == 0x5be0cd19
  {
  }

  // ----- One round -----

  /** Bit k of s is the parity of three bits of w. */
  predicate DrawsOn(s: Word, w: Word, p: nat, q: nat, r: nat) {
    forall k :: 0 <= k < 32 ==>
      Bit(s, k) == ((Bit(w, (k + p) % 32) != Bit(w, (k + q) % 32)) != Bit(w, (k + r) % 32))
  }

  predicate Chooses(x: Word, y: Word, z: Word, c: Word) {
    x & c == x & y && !x & c == !x & z
  }

  predicate Decides(x: Word, y: Word, z: Word, m: Word) {
    z & m == z & (x | y) && !z & m == !z & (x & y)
  }

  /** A round, in terms of any words that have the properties of its parts. */
  lemma RoundLaw(s: Hash, k: Word, w: Word, sum0: Word, sum1: Word, choice: Word, majority: Word)
    requires DrawsOn(sum0, s.a, 2, 13, 22) && DrawsOn(sum1, s.e, 6, 11, 25)
    requires Chooses(s.e, s.f, s.g, choice) && Decides(s.a, s.b, s.c, majority)
    ensures var t1 := Plus(Plus(Plus(Plus(s.h, sum1), choice), k), w);
            Round(s, k, w)
            == Hash(Plus(t1, Plus(sum0, majority)), s.a, s.b, s.c, Plus(s.d, t1), s.e, s.f, s.g)
  {
    hide Bit, BigSigma0, BigSigma1, Ch, Maj, Plus, Chooses, Decides;
    ChoiceIs(s, choice);
    MajorityIs(s, majority);
    Sums(s, sum0, sum1);
  }

  lemma ChoiceIs(s: Hash, choice: Word)
    requires Chooses(s.e, s.f, s.g, choice)
    ensures choice == Ch(s.e, s.f, s.g)
  {
    ChDetermined(s.e, s.f, s.g, choice);
  }

  lemma MajorityIs(s: Hash, majority: Word)
    requires Decides(s.a, s.b, s.c, majority)
    ensures majority == Maj(s.a, s.b, s.c)
  {
    MajDetermined(s.a, s.b, s.c, majority);
  }

  lemma Sums(s: Hash, sum0: Word, sum1: Word)
    requires DrawsOn(sum0, s.a, 2, 13, 22) && DrawsOn(sum1, s.e, 6, 11, 25)
    ensures sum0 == BigSigma0(s.a) && sum1 == BigSigma1(s.e)
  {
    hide Bit, BigSigma0, BigSigma1;
    forall k | 0 <= k < 32
      ensures Bit(sum0, k) == Bit(BigSigma0(s.a), k) && Bit(sum1, k) == Bit(BigSigma1(s.e), k)
    {
      BigSigma0Bit(s.a, k);
      BigSigma1Bit(s.e, k);
    }
    SameBits(sum0, BigSigma0(s.a));
    SameBits(sum1, BigSigma1(s.e));
  }

  // ----- The message schedule and the compression -----

  /** Addition wraps around at 2^32. */
  lemma PlusWraps(x: Word, y: Word)
    ensures Plus(x, 0) == x && Plus(x, y) == Plus(y, x)
    ensures Plus(0xFFFF_FFFF, 2) == 1
  {
  }

  /** The same with a third place that does not wrap around. */
  predicate DrawsOnShifted(s: Word, w: Word, p: nat, q: nat, r: nat) {
    forall k :: 0 <= k < 32 ==>
      Bit(s, k) == ((Bit(w, (k + p) % 32) != Bit(w, (k + q) % 32)) != (k + r < 32 && Bit(w, k + r)))
  }

  /** The first sixteen words are those of the block. */
  lemma ScheduleStarts(block: Block, t: nat)
    requires t < 16
    ensures WordBytes(Schedule(block, t)) == block[4 * t..4 * t + 4]
  {
    hide BigEndian, WordBytes;
    WordOfBytes(block[4 * t], block[4 * t + 1], block[4 * t + 2], block[4 * t + 3]);
  }

  /** The others come from earlier ones, in terms of any words with the properties of the sigmas. */
  lemma ScheduleLaw(block: Block, t: nat, sum0: Word, sum1: Word)
    requires 16 <= t < ROUNDS
    requires DrawsOnShifted(sum0, Schedule(block, t - 15), 7, 18, 3)
    requires DrawsOnShifted(sum1, Schedule(block, t - 2), 17, 19, 10)
    ensures Schedule(block, t)
         == Plus(Plus(Plus(sum1, Schedule(block, t - 7)), sum0), Schedule(block, t - 16))
  {
    hide Bit, SmallSigma0, SmallSigma1, Plus;
    SmallSums(Schedule(block, t - 15), Schedule(block, t - 2), sum0, sum1);
  }

  lemma SmallSums(u: Word, v: Word, sum0: Word, sum1: Word)
    requires DrawsOnShifted(sum0, u, 7, 18, 3) && DrawsOnShifted(sum1, v, 17, 19, 10)
    ensures sum0 == SmallSigma0(u) && sum1 == SmallSigma1(v)
  {
    hide Bit, SmallSigma0, SmallSigma1;
    forall k | 0 <= k < 32
      ensures Bit(sum0, k) == Bit(SmallSigma0(u), k) && Bit(sum1, k) == Bit(SmallSigma1(v), k)
    {
      SmallSigma0Bit(u, k);
      SmallSigma1Bit(v, k);
    }
    SameBits(sum0, SmallSigma0(u));
    SameBits(sum1, SmallSigma1(v));
  }

  /** v holds the working variables before the first round, after it, and so on. */
  predicate WorkedOut(s: Hash, block: Block, v: seq<Hash>) {
    && |v| == 65 && v[0] == s
    && forall t :: 0 <= t < 64 ==> v[t + 1] == Round(v[t], K(t), Schedule(block, t))
  }

  lemma {:induction false} RoundsAre(s: Hash, block: Block, v: seq<Hash>, t: nat)
    requires WorkedOut(s, block, v) && t <= ROUNDS
    ensures Rounds(s, block, t) == v[t]
    decreases t
  {
    hide Round, K, Schedule;
    if t > 0 {
      RoundsAre(s, block, v, t - 1);
      assert v[t - 1 + 1] == v[t];
    }
  }

  /** 64 rounds, and the sum with what the block started from, word by word. */
  lemma CompressLaw(s: Hash, block: Block, v: seq<Hash>)
    requires WorkedOut(s, block, v)
    ensures var e := v[64];
            Compress(s, block) == Hash(Plus(s.a, e.a), Plus(s.b, e.b), Plus(s.c, e.c), Plus(s.d, e.d),
                                       Plus(s.e, e.e), Plus(s.f, e.f), Plus(s.g, e.g), Plus(s.h, e.h))
  {
    hide Rounds, Plus, WorkedOut;
    RoundsAre(s, block, v, ROUNDS);
  }

  // ----- Padding and whole messages -----

  function Power256(i: nat): (p: nat)
    ensures p > 0
  {
    if i == 0 then 1 else 256 * Power256(i - 1)
  }

  /** The length field holds the length, most significant byte first. */
  lemma LengthField(bits: nat, i: nat)
    requires i < 8
    ensures LengthBytes(bits)[7 - i] == ToByte(bits / Power256(i))
  {
    hide ToByte;
    assert Power256(1) == 0x100 && Power256(2) == 0x1_0000 && Power256(3) == 0x100_0000;
    assert Power256(4) == 0x1_0000_0000 && Power256(5) == 0x100_0000_0000;
    assert Power256(6) == 0x1_0000_0000_0000 && Power256(7) == 0x100_0000_0000_0000;
    match i
    case 0 => case 1 => case 2 => case 3 => case 4 => case 5 => case 6 => case _ =>
  }

  /** The padding: a one bit, as few zeros as fill the last block, and the length in bits. */
  lemma PadLaw(message: seq<Byte>)
    ensures var p, n := Pad(message), |message|;
            && |p| % 64 == 0 && n + 9 <= |p| < n + 9 + 64
            && p[..n] == message && p[n] == 0x80
            && (forall i :: n < i < |p| - 8 ==> p[i] == 0)
            && p[|p| - 8..] == LengthBytes(8 * n)
  {
    hide LengthBytes;
  }

  /** h holds the hash value before the first block, after it, and so on. */
  predicate Chained(bytes: seq<Byte>, h: seq<Hash>)
    requires |bytes| % 64 == 0
  {
    && |h| == |bytes| / 64 + 1 && h[0] == H0
    && forall i :: 0 <= i < |bytes| / 64 ==> h[i + 1] == Compress(h[i], bytes[64 * i..64 * i + 64])
  }

  lemma SliceOfPrefix(s: seq<Byte>, m: nat, lo: nat, hi: nat)
    requires lo <= hi <= m <= |s|
    ensures s[..m][lo..hi] == s[lo..hi]
  {
  }

  lemma {:induction false} ChainIs(bytes: seq<Byte>, h: seq<Hash>)
    requires |bytes| % 64 == 0 && Chained(bytes, h)
    ensures HashBlocks(bytes) == h[|bytes| / 64]
  {
    hide Compress;
    if bytes != [] {
      var n := |bytes| / 64 - 1;
      var front := bytes[..|bytes| - 64];
      forall i | 0 <= i < |front| / 64
        ensures h[..n + 1][i + 1] == Compress(h[..n + 1][i], front[64 * i..64 * i + 64])
      {
        SliceOfPrefix(bytes, |front|, 64 * i, 64 * i + 64);
      }
      ChainIs(front, h[..n + 1]);
      assert bytes[64 * n..64 * n + 64] == bytes[|bytes| - 64..];
      assert h[n + 1] == Compress(h[n], bytes[64 * n..64 * n + 64]);
    }
  }

  /** The digest: all blocks in order, and the eight words of the last hash value. */
  lemma DigestLaw(message: seq<Byte>, h: seq<Hash>)
    requires |message| < LIMIT && Chained(Pad(message), h)
    ensures var e := h[|Pad(message)| / 64];
            Digest(message) == WordBytes(e.a) + WordBytes(e.b) + WordBytes(e.c) + WordBytes(e.d)
                             + WordBytes(e.e) + WordBytes(e.f) + WordBytes(e.g) + WordBytes(e.h)
  {
    hide WordBytes, Pad, Chained, HashBlocks;
    ChainIs(Pad(message), h);
  }
}
