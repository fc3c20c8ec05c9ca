/** The example of FIPS 180-2, appendix A.1: the message "abc", its message schedule and its working variables after
    every round. */
module Sha1Example {
  import opened Sha1Spec

  const ABC: seq<Byte> := [0x61, 0x62, 0x63]

  /** The padded message, one block. */
  function Block(): (s: seq<Byte>)
    ensures |s| == 64
  {
    ABC + [0x80] + Zeros(56) + [0, 0, 0, 24]
  }

  lemma PadIsBlock()
    ensures Pad(ABC) == Block()
  {
    ZerosJoin(52, 4);
    TailIs(3);
    Regroup(ABC, Zeros(52), Zeros(4), [0, 0, 0, 24]);
  }

  lemma LengthBytes()
    ensures Bytes8(24) == Zeros(4) + [0, 0, 0, 24]
  {
    LowIs();
    assert Zeros(4) == [0, 0, 0, 0];
  }

  lemma LowIs()
    ensures Low(0) == 0 && Low(24) == 24
  {
  }

  lemma TailIs(n: nat)
    requires ZeroCount(n) == 52 && 8 * n % TWO64 == 24
    ensures PadTail(n) == [0x80] + Zeros(52) + (Zeros(4) + [0, 0, 0, 24])
  {
    LengthBytes();
  }

  lemma ZerosJoin(m: nat, n: nat)
    ensures Zeros(m) + Zeros(n) == Zeros(m + n)
  {
  }

  lemma Regroup(m: seq<Byte>, a: seq<Byte>, b: seq<Byte>, c: seq<Byte>)
    ensures m + ([0x80] + a + (b + c)) == m + [0x80] + (a + b) + c
  {
  }

  lemma BlockAt(i: nat)
    requires i < 64
    ensures Block()[i] == if i == 0 then 0x61 else if i == 1 then 0x62 else if i == 2 then 0x63 else if i == 3 then 0x80
                          else if i == 63 then 24 else 0
  {
  }

  lemma FirstWords(t: nat)
    requires t < 16
    ensures W(Block(), t) == if t == 0 then 0x61626380 else if t == 15 then 24 else 0
  {
    BlockAt(4 * t);
    BlockAt(4 * t + 1);
    BlockAt(4 * t + 2);
    BlockAt(4 * t + 3);
  }

  lemma LeadingWords()
    ensures W(Block(), 0) == 0x61626380 && W(Block(), 1) == W(Block(), 2) == W(Block(), 3) == W(Block(), 4) == 0
    ensures W(Block(), 5) == W(Block(), 6) == W(Block(), 7) == W(Block(), 8) == W(Block(), 9) == 0
    ensures W(Block(), 10) == W(Block(), 11) == W(Block(), 12) == W(Block(), 13) == W(Block(), 14) == 0
    ensures W(Block(), 15) == 24
  {
    FirstWords(0);
    FirstWords(1);
    FirstWords(2);
    FirstWords(3);
    FirstWords(4);
    FirstWords(5);
    FirstWords(6);
    FirstWords(7);
    FirstWords(8);
    FirstWords(9);
    FirstWords(10);
    FirstWords(11);
    FirstWords(12);
    FirstWords(13);
    FirstWords(14);
    FirstWords(15);
  }

  lemma NextWord(t: nat, w3: Word, w8: Word, w14: Word, w16: Word)
    requires t >= 16 && W(Block(), t - 3) == w3 && W(Block(), t - 8) == w8
    requires W(Block(), t - 14) == w14 && W(Block(), t - 16) == w16
    ensures W(Block(), t) == Expanded(w3, w8, w14, w16)
  {
  }

  lemma NextRound(t: nat, r: Regs, w: Word)
    requires Rounds(INITIAL, Block(), t) == r && W(Block(), t) == w
    ensures Rounds(INITIAL, Block(), t + 1) == Round(r, t, w)
  {
  }

  lemma Words16()
    ensures W(Block(), 16) == 0xc2c4c700
    ensures W(Block(), 17) == 0x00000000
    ensures W(Block(), 18) == 0x00000030
    ensures W(Block(), 19) == 0x85898e01
    ensures W(Block(), 20) == 0x00000000
    ensures W(Block(), 21) == 0x00000060
    ensures W(Block(), 22) == 0x0b131c03
    ensures W(Block(), 23) == 0x00000030
  {
    LeadingWords();
    NextWord(16, 0x00000000, 0x00000000, 0x00000000, 0x61626380);
    NextWord(17, 0x00000000, 0x00000000, 0x00000000, 0x00000000);
    NextWord(18, 0x00000018, 0x00000000, 0x00000000, 0x00000000);
    NextWord(19, 0xc2c4c700, 0x00000000, 0x00000000, 0x00000000);
    NextWord(20, 0x00000000, 0x00000000, 0x00000000, 0x00000000);
    NextWord(21, 0x00000030, 0x00000000, 0x00000000, 0x00000000);
    NextWord(22, 0x85898e01, 0x00000000, 0x00000000, 0x00000000);
    NextWord(23, 0x00000000, 0x00000018, 0x00000000, 0x00000000);
  }

  lemma Words24()
    ensures W(Block(), 24) == 0x85898ec1
    ensures W(Block(), 25) == 0x16263806
    ensures W(Block(), 26) == 0x00000000
    ensures W(Block(), 27) == 0x00000180
    ensures W(Block(), 28) == 0x2c4c700c
    ensures W(Block(), 29) == 0x000000f0
    ensures W(Block(), 30) == 0x93afb507
    ensures W(Block(), 31) == 0x5898e048
  {
    LeadingWords();
    Words16();
    NextWord(24, 0x00000060, 0xc2c4c700, 0x00000000, 0x00000000);
    NextWord(25, 0x0b131c03, 0x00000000, 0x00000000, 0x00000000);
    NextWord(26, 0x00000030, 0x00000030, 0x00000000, 0x00000000);
    NextWord(27, 0x85898ec1, 0x85898e01, 0x00000000, 0x00000000);
    NextWord(28, 0x16263806, 0x00000000, 0x00000000, 0x00000000);
    NextWord(29, 0x00000000, 0x00000060, 0x00000018, 0x00000000);
    NextWord(30, 0x00000180, 0x0b131c03, 0xc2c4c700, 0x00000000);
    NextWord(31, 0x2c4c700c, 0x00000030, 0x00000000, 0x00000018);
  }

  lemma Words32()
    ensures W(Block(), 32) == 0x8e9a9202
    ensures W(Block(), 33) == 0x00000600
    ensures W(Block(), 34) == 0xb131c0f0
    ensures W(Block(), 35) == 0x16263bc6
    ensures W(Block(), 36) == 0x4ebed41e
    ensures W(Block(), 37) == 0x626380a1
    ensures W(Block(), 38) == 0x16263806
    ensures W(Block(), 39) == 0x000018c0
  {
    Words16();
    Words24();
    NextWord(32, 0x000000f0, 0x85898ec1, 0x00000030, 0xc2c4c700);
    NextWord(33, 0x93afb507, 0x16263806, 0x85898e01, 0x00000000);
    NextWord(34, 0x5898e048, 0x00000000, 0x00000000, 0x00000030);
    NextWord(35, 0x8e9a9202, 0x00000180, 0x00000060, 0x85898e01);
    NextWord(36, 0x00000600, 0x2c4c700c, 0x0b131c03, 0x00000000);
    NextWord(37, 0xb131c0f0, 0x000000f0, 0x00000030, 0x00000060);
    NextWord(38, 0x16263bc6, 0x93afb507, 0x85898ec1, 0x0b131c03);
    NextWord(39, 0x4ebed41e, 0x5898e048, 0x16263806, 0x00000030);
  }

  lemma Words40()
    ensures W(Block(), 40) == 0xd2e138c4
    ensures W(Block(), 41) == 0x00000f00
    ensures W(Block(), 42) == 0x3afb5079
    ensures W(Block(), 43) == 0x898e04e5
    ensures W(Block(), 44) == 0xe2ba3c2b
    ensures W(Block(), 45) == 0x000060c0
    ensures W(Block(), 46) == 0x053a37cd
    ensures W(Block(), 47) == 0x74458547
  {
    Words24();
    Words32();
    NextWord(40, 0x626380a1, 0x8e9a9202, 0x00000000, 0x85898ec1);
    NextWord(41, 0x16263806, 0x00000600, 0x00000180, 0x16263806);
    NextWord(42, 0x000018c0, 0xb131c0f0, 0x2c4c700c, 0x00000000);
    NextWord(43, 0xd2e138c4, 0x16263bc6, 0x000000f0, 0x00000180);
    NextWord(44, 0x00000f00, 0x4ebed41e, 0x93afb507, 0x2c4c700c);
    NextWord(45, 0x3afb5079, 0x626380a1, 0x5898e048, 0x000000f0);
    NextWord(46, 0x898e04e5, 0x16263806, 0x8e9a9202, 0x93afb507);
    NextWord(47, 0xe2ba3c2b, 0x000018c0, 0x00000600, 0x5898e048);
  }

  lemma Words48()
    ensures W(Block(), 48) == 0xda9415ed
    ensures W(Block(), 49) == 0x26380a16
    ensures W(Block(), 50) == 0x626383a1
    ensures W(Block(), 51) == 0x4ebf54de
    ensures W(Block(), 52) == 0x3835b44b
    ensures W(Block(), 53) == 0x0000f600
    ensures W(Block(), 54) == 0x1e84c7a3
    ensures W(Block(), 55) == 0x98e04d98
  {
    Words32();
    Words40();
    NextWord(48, 0x000060c0, 0xd2e138c4, 0xb131c0f0, 0x8e9a9202);
    NextWord(49, 0x053a37cd, 0x00000f00, 0x16263bc6, 0x00000600);
    NextWord(50, 0x74458547, 0x3afb5079, 0x4ebed41e, 0xb131c0f0);
    NextWord(51, 0xda9415ed, 0x898e04e5, 0x626380a1, 0x16263bc6);
    NextWord(52, 0x26380a16, 0xe2ba3c2b, 0x16263806, 0x4ebed41e);
    NextWord(53, 0x626383a1, 0x000060c0, 0x000018c0, 0x626380a1);
    NextWord(54, 0x4ebf54de, 0x053a37cd, 0xd2e138c4, 0x16263806);
    NextWord(55, 0x3835b44b, 0x74458547, 0x00000f00, 0x000018c0);
  }

  lemma Words56()
    ensures W(Block(), 56) == 0x651d16a0
    ensures W(Block(), 57) == 0x62658ca1
    ensures W(Block(), 58) == 0x458544d6
    ensures W(Block(), 59) == 0x44584cb7
    ensures W(Block(), 60) == 0x7ba06619
    ensures W(Block(), 61) == 0x6380aea2
    ensures W(Block(), 62) == 0x0ae55269
    ensures W(Block(), 63) == 0x627b49a1
  {
    Words40();
    Words48();
    NextWord(56, 0x0000f600, 0xda9415ed, 0x3afb5079, 0xd2e138c4);
    NextWord(57, 0x1e84c7a3, 0x26380a16, 0x898e04e5, 0x00000f00);
    NextWord(58, 0x98e04d98, 0x626383a1, 0xe2ba3c2b, 0x3afb5079);
    NextWord(59, 0x651d16a0, 0x4ebf54de, 0x000060c0, 0x898e04e5);
    NextWord(60, 0x62658ca1, 0x3835b44b, 0x053a37cd, 0xe2ba3c2b);
    NextWord(61, 0x458544d6, 0x0000f600, 0x74458547, 0x000060c0);
    NextWord(62, 0x44584cb7, 0x1e84c7a3, 0xda9415ed, 0x053a37cd);
    NextWord(63, 0x7ba06619, 0x98e04d98, 0x26380a16, 0x74458547);
  }

  lemma Words64()
    ensures W(Block(), 64) == 0x7cd45c9d
    ensures W(Block(), 65) == 0x000f0000
    ensures W(Block(), 66) == 0xfb50753a
    ensures W(Block(), 67) == 0xec6765e8
    ensures W(Block(), 68) == 0xba3c2be2
    ensures W(Block(), 69) == 0x0060c000
    ensures W(Block(), 70) == 0x3a37cd05
    ensures W(Block(), 71) == 0x458546f4
  {
    Words48();
    Words56();
    NextWord(64, 0x6380aea2, 0x651d16a0, 0x626383a1, 0xda9415ed);
    NextWord(65, 0x0ae55269, 0x62658ca1, 0x4ebf54de, 0x26380a16);
    NextWord(66, 0x627b49a1, 0x458544d6, 0x3835b44b, 0x626383a1);
    NextWord(67, 0x7cd45c9d, 0x44584cb7, 0x0000f600, 0x4ebf54de);
    NextWord(68, 0x000f0000, 0x7ba06619, 0x1e84c7a3, 0x3835b44b);
    NextWord(69, 0xfb50753a, 0x6380aea2, 0x98e04d98, 0x0000f600);
    NextWord(70, 0xec6765e8, 0x0ae55269, 0x651d16a0, 0x1e84c7a3);
    NextWord(71, 0xba3c2be2, 0x627b49a1, 0x62658ca1, 0x98e04d98);
  }

  lemma Words72()
    ensures W(Block(), 72) == 0xb8599dd6
    ensures W(Block(), 73) == 0x380a1a26
    ensures W(Block(), 74) == 0x01e02203
    ensures W(Block(), 75) == 0xe7cc3456
    ensures W(Block(), 76) == 0xe6e60b69
    ensures W(Block(), 77) == 0x00f60a00
    ensures W(Block(), 78) == 0x5795ef4f
    ensures W(Block(), 79) == 0x822e0879
  {
    Words56();
    Words64();
    NextWord(72, 0x0060c000, 0x7cd45c9d, 0x458544d6, 0x651d16a0);
    NextWord(73, 0x3a37cd05, 0x000f0000, 0x44584cb7, 0x62658ca1);
    NextWord(74, 0x458546f4, 0xfb50753a, 0x7ba06619, 0x458544d6);
    NextWord(75, 0xb8599dd6, 0xec6765e8, 0x6380aea2, 0x44584cb7);
    NextWord(76, 0x380a1a26, 0xba3c2be2, 0x0ae55269, 0x7ba06619);
    NextWord(77, 0x01e02203, 0x0060c000, 0x627b49a1, 0x6380aea2);
    NextWord(78, 0xe7cc3456, 0x3a37cd05, 0x7cd45c9d, 0x0ae55269);
    NextWord(79, 0xe6e60b69, 0x458546f4, 0x000f0000, 0x627b49a1);
  }

  lemma Rounds8()
    ensures Rounds(INITIAL, Block(), 8) == Regs(0x9e8c07d4, 0x993e30c1, 0x0ff1f290, 0xb3f52677, 0xf3763846)
  {
    FirstWords(0);
    NextRound(0, Regs(0x67452301, 0xefcdab89, 0x98badcfe, 0x10325476, 0xc3d2e1f0), 0x61626380);
    FirstWords(1);
    NextRound(1, Regs(0x0116fc33, 0x67452301, 0x7bf36ae2, 0x98badcfe, 0x10325476), 0x00000000);
    FirstWords(2);
    NextRound(2, Regs(0x8990536d, 0x0116fc33, 0x59d148c0, 0x7bf36ae2, 0x98badcfe), 0x00000000);
    FirstWords(3);
    NextRound(3, Regs(0xa1390f08, 0x8990536d, 0xc045bf0c, 0x59d148c0, 0x7bf36ae2), 0x00000000);
    FirstWords(4);
    NextRound(4, Regs(0xcdd8e11b, 0xa1390f08, 0x626414db, 0xc045bf0c, 0x59d148c0), 0x00000000);
    FirstWords(5);
    NextRound(5, Regs(0xcfd499de, 0xcdd8e11b, 0x284e43c2, 0x626414db, 0xc045bf0c), 0x00000000);
    FirstWords(6);
    NextRound(6, Regs(0x3fc7ca40, 0xcfd499de, 0xf3763846, 0x284e43c2, 0x626414db), 0x00000000);
    FirstWords(7);
    NextRound(7, Regs(0x993e30c1, 0x3fc7ca40, 0xb3f52677, 0xf3763846, 0x284e43c2), 0x00000000);
  }

  lemma Rounds16()
    ensures Rounds(INITIAL, Block(), 16) == Regs(0x20bdd62f, 0x196bee77, 0x644a3da5, 0x1181ed99, 0x18c623f9)
  {
    Rounds8();
    FirstWords(8);
    NextRound(8, Regs(0x9e8c07d4, 0x993e30c1, 0x0ff1f290, 0xb3f52677, 0xf3763846), 0x00000000);
    FirstWords(9);
    NextRound(9, Regs(0x4b6ae328, 0x9e8c07d4, 0x664f8c30, 0x0ff1f290, 0xb3f52677), 0x00000000);
    FirstWords(10);
    NextRound(10, Regs(0x8351f929, 0x4b6ae328, 0x27a301f5, 0x664f8c30, 0x0ff1f290), 0x00000000);
    FirstWords(11);
    NextRound(11, Regs(0xfbda9e89, 0x8351f929, 0x12dab8ca, 0x27a301f5, 0x664f8c30), 0x00000000);
    FirstWords(12);
    NextRound(12, Regs(0x63188fe4, 0xfbda9e89, 0x60d47e4a, 0x12dab8ca, 0x27a301f5), 0x00000000);
    FirstWords(13);
    NextRound(13, Regs(0x4607b664, 0x63188fe4, 0x7ef6a7a2, 0x60d47e4a, 0x12dab8ca), 0x00000000);
    FirstWords(14);
    NextRound(14, Regs(0x9128f695, 0x4607b664, 0x18c623f9, 0x7ef6a7a2, 0x60d47e4a), 0x00000000);
    FirstWords(15);
    NextRound(15, Regs(0x196bee77, 0x9128f695, 0x1181ed99, 0x18c623f9, 0x7ef6a7a2), 0x00000018);
  }

  lemma Rounds24()
    ensures Rounds(INITIAL, Block(), 24) == Regs(0xd541f12d, 0x21283486, 0x0ce88eff, 0x868dec32, 0x7f67875f)
  {
    Rounds16();
    Words16();
    NextRound(16, Regs(0x20bdd62f, 0x196bee77, 0x644a3da5, 0x1181ed99, 0x18c623f9), 0xc2c4c700);
    NextRound(17, Regs(0x4e925823, 0x20bdd62f, 0xc65afb9d, 0x644a3da5, 0x1181ed99), 0x00000000);
    NextRound(18, Regs(0x82aa6728, 0x4e925823, 0xc82f758b, 0xc65afb9d, 0x644a3da5), 0x00000030);
    NextRound(19, Regs(0xdc64901d, 0x82aa6728, 0xd3a49608, 0xc82f758b, 0xc65afb9d), 0x85898e01);
    NextRound(20, Regs(0xfd9e1d7d, 0xdc64901d, 0x20aa99ca, 0xd3a49608, 0xc82f758b), 0x00000000);
    NextRound(21, Regs(0x1a37b0ca, 0xfd9e1d7d, 0x77192407, 0x20aa99ca, 0xd3a49608), 0x00000060);
    NextRound(22, Regs(0x33a23bfc, 0x1a37b0ca, 0x7f67875f, 0x77192407, 0x20aa99ca), 0x0b131c03);
    NextRound(23, Regs(0x21283486, 0x33a23bfc, 0x868dec32, 0x7f67875f, 0x77192407), 0x00000030);
  }

  lemma Rounds32()
    ensures Rounds(INITIAL, Block(), 32) == Regs(0x3b845d33, 0x1267b407, 0x717eebd7, 0xa0dc2d4b, 0xd2aa1365)
  {
    Rounds24();
    Words24();
    NextRound(24, Regs(0xd541f12d, 0x21283486, 0x0ce88eff, 0x868dec32, 0x7f67875f), 0x85898ec1);
    NextRound(25, Regs(0xc7567dc6, 0xd541f12d, 0x884a0d21, 0x0ce88eff, 0x868dec32), 0x16263806);
    NextRound(26, Regs(0x48413ba4, 0xc7567dc6, 0x75507c4b, 0x884a0d21, 0x0ce88eff), 0x00000000);
    NextRound(27, Regs(0xbe35fbd5, 0x48413ba4, 0xb1d59f71, 0x75507c4b, 0x884a0d21), 0x00000180);
    NextRound(28, Regs(0x4aa84d97, 0xbe35fbd5, 0x12104ee9, 0xb1d59f71, 0x75507c4b), 0x2c4c700c);
    NextRound(29, Regs(0x8370b52e, 0x4aa84d97, 0x6f8d7ef5, 0x12104ee9, 0xb1d59f71), 0x000000f0);
    NextRound(30, Regs(0xc5fbaf5d, 0x8370b52e, 0xd2aa1365, 0x6f8d7ef5, 0x12104ee9), 0x93afb507);
    NextRound(31, Regs(0x1267b407, 0xc5fbaf5d, 0xa0dc2d4b, 0xd2aa1365, 0x6f8d7ef5), 0x5898e048);
  }

  lemma Rounds40()
    ensures Rounds(INITIAL, Block(), 40) == Regs(0x32de1cba, 0x4c986405, 0xf718e5cf, 0x03d447f6, 0xf72eec32)
  {
    Rounds32();
    Words32();
    NextRound(32, Regs(0x3b845d33, 0x1267b407, 0x717eebd7, 0xa0dc2d4b, 0xd2aa1365), 0x8e9a9202);
    NextRound(33, Regs(0x046faa0a, 0x3b845d33, 0xc499ed01, 0x717eebd7, 0xa0dc2d4b), 0x00000600);
    NextRound(34, Regs(0x2c0ebc11, 0x046faa0a, 0xcee1174c, 0xc499ed01, 0x717eebd7), 0xb131c0f0);
    NextRound(35, Regs(0x21796ad4, 0x2c0ebc11, 0x811bea82, 0xcee1174c, 0xc499ed01), 0x16263bc6);
    NextRound(36, Regs(0xdcbbb0cb, 0x21796ad4, 0x4b03af04, 0x811bea82, 0xcee1174c), 0x4ebed41e);
    NextRound(37, Regs(0x0f511fd8, 0xdcbbb0cb, 0x085e5ab5, 0x4b03af04, 0x811bea82), 0x626380a1);
    NextRound(38, Regs(0xdc63973f, 0x0f511fd8, 0xf72eec32, 0x085e5ab5, 0x4b03af04), 0x16263806);
    NextRound(39, Regs(0x4c986405, 0xdc63973f, 0x03d447f6, 0xf72eec32, 0x085e5ab5), 0x000018c0);
  }

  lemma Rounds48()
    ensures Rounds(INITIAL, Block(), 48) == Regs(0xbead02ca, 0xa01b846c, 0x8714787c, 0x503ca382, 0xfb86c6ab)
  {
    Rounds40();
    Words40();
    NextRound(40, Regs(0x32de1cba, 0x4c986405, 0xf718e5cf, 0x03d447f6, 0xf72eec32), 0xd2e138c4);
    NextRound(41, Regs(0xfc87dedf, 0x32de1cba, 0x53261901, 0xf718e5cf, 0x03d447f6), 0x00000f00);
    NextRound(42, Regs(0x970a0d5c, 0xfc87dedf, 0x8cb7872e, 0x53261901, 0xf718e5cf), 0x3afb5079);
    NextRound(43, Regs(0x7f193dc5, 0x970a0d5c, 0xff21f7b7, 0x8cb7872e, 0x53261901), 0x898e04e5);
    NextRound(44, Regs(0xee1b1aaf, 0x7f193dc5, 0x25c28357, 0xff21f7b7, 0x8cb7872e), 0xe2ba3c2b);
    NextRound(45, Regs(0x40f28e09, 0xee1b1aaf, 0x5fc64f71, 0x25c28357, 0xff21f7b7), 0x000060c0);
    NextRound(46, Regs(0x1c51e1f2, 0x40f28e09, 0xfb86c6ab, 0x5fc64f71, 0x25c28357), 0x053a37cd);
    NextRound(47, Regs(0xa01b846c, 0x1c51e1f2, 0x503ca382, 0xfb86c6ab, 0x5fc64f71), 0x74458547);
  }

  lemma Rounds56()
    ensures Rounds(INITIAL, Block(), 56) == Regs(0x5e6456af, 0x7b71f76d, 0x09fa7c76, 0x792410db, 0x8e11eb59)
  {
    Rounds48();
    Words48();
    NextRound(48, Regs(0xbead02ca, 0xa01b846c, 0x8714787c, 0x503ca382, 0xfb86c6ab), 0xda9415ed);
    NextRound(49, Regs(0xbaf39337, 0xbead02ca, 0x2806e11b, 0x8714787c, 0x503ca382), 0x26380a16);
    NextRound(50, Regs(0x120731c5, 0xbaf39337, 0xafab40b2, 0x2806e11b, 0x8714787c), 0x626383a1);
    NextRound(51, Regs(0x641db2ce, 0x120731c5, 0xeebce4cd, 0xafab40b2, 0x2806e11b), 0x4ebf54de);
    NextRound(52, Regs(0x3847ad66, 0x641db2ce, 0x4481cc71, 0xeebce4cd, 0xafab40b2), 0x3835b44b);
    NextRound(53, Regs(0xe490436d, 0x3847ad66, 0x99076cb3, 0x4481cc71, 0xeebce4cd), 0x0000f600);
    NextRound(54, Regs(0x27e9f1d8, 0xe490436d, 0x8e11eb59, 0x99076cb3, 0x4481cc71), 0x1e84c7a3);
    NextRound(55, Regs(0x7b71f76d, 0x27e9f1d8, 0x792410db, 0x8e11eb59, 0x99076cb3), 0x98e04d98);
  }

  lemma Rounds64()
    ensures Rounds(INITIAL, Block(), 64) == Regs(0x6b61c9e1, 0xb66c020b, 0x9523272c, 0xf5d5b051, 0x8fd4b796)
  {
    Rounds56();
    Words56();
    NextRound(56, Regs(0x5e6456af, 0x7b71f76d, 0x09fa7c76, 0x792410db, 0x8e11eb59), 0x651d16a0);
    NextRound(57, Regs(0xc846093f, 0x5e6456af, 0x5edc7ddb, 0x09fa7c76, 0x792410db), 0x62658ca1);
    NextRound(58, Regs(0xd262ff50, 0xc846093f, 0xd79915ab, 0x5edc7ddb, 0x09fa7c76), 0x458544d6);
    NextRound(59, Regs(0x09d785fd, 0xd262ff50, 0xf211824f, 0xd79915ab, 0x5edc7ddb), 0x44584cb7);
    NextRound(60, Regs(0x3f52de5a, 0x09d785fd, 0x3498bfd4, 0xf211824f, 0xd79915ab), 0x7ba06619);
    NextRound(61, Regs(0xd756c147, 0x3f52de5a, 0x4275e17f, 0x3498bfd4, 0xf211824f), 0x6380aea2);
    NextRound(62, Regs(0x548c9cb2, 0xd756c147, 0x8fd4b796, 0x4275e17f, 0x3498bfd4), 0x0ae55269);
    NextRound(63, Regs(0xb66c020b, 0x548c9cb2, 0xf5d5b051, 0x8fd4b796, 0x4275e17f), 0x627b49a1);
  }

  lemma Rounds72()
    ensures Rounds(INITIAL, Block(), 72) == Regs(0x39859de7, 0xc199f8c7, 0x8fc96230, 0x125c24f0, 0xde37534a)
  {
    Rounds64();
    Words64();
    NextRound(64, Regs(0x6b61c9e1, 0xb66c020b, 0x9523272c, 0xf5d5b051, 0x8fd4b796), 0x7cd45c9d);
    NextRound(65, Regs(0x19dfa7ac, 0x6b61c9e1, 0xed9b0082, 0x9523272c, 0xf5d5b051), 0x000f0000);
    NextRound(66, Regs(0x101655f9, 0x19dfa7ac, 0x5ad87278, 0xed9b0082, 0x9523272c), 0xfb50753a);
    NextRound(67, Regs(0x0c3df2b4, 0x101655f9, 0x0677e9eb, 0x5ad87278, 0xed9b0082), 0xec6765e8);
    NextRound(68, Regs(0x78dd4d2b, 0x0c3df2b4, 0x4405957e, 0x0677e9eb, 0x5ad87278), 0xba3c2be2);
    NextRound(69, Regs(0x497093c0, 0x78dd4d2b, 0x030f7cad, 0x4405957e, 0x0677e9eb), 0x0060c000);
    NextRound(70, Regs(0x3f2588c2, 0x497093c0, 0xde37534a, 0x030f7cad, 0x4405957e), 0x3a37cd05);
    NextRound(71, Regs(0xc199f8c7, 0x3f2588c2, 0x125c24f0, 0xde37534a, 0x030f7cad), 0x458546f4);
  }

  lemma Rounds80()
    ensures Rounds(INITIAL, Block(), 80) == Regs(0x42541b35, 0x5738d5e1, 0x21834873, 0x681e6df6, 0xd8fdf6ad)
  {
    Rounds72();
    Words72();
    NextRound(72, Regs(0x39859de7, 0xc199f8c7, 0x8fc96230, 0x125c24f0, 0xde37534a), 0xb8599dd6);
    NextRound(73, Regs(0xedb42de4, 0x39859de7, 0xf0667e31, 0x8fc96230, 0x125c24f0), 0x380a1a26);
    NextRound(74, Regs(0x11793f6f, 0xedb42de4, 0xce616779, 0xf0667e31, 0x8fc96230), 0x01e02203);
    NextRound(75, Regs(0x5ee76897, 0x11793f6f, 0x3b6d0b79, 0xce616779, 0xf0667e31), 0xe7cc3456);
    NextRound(76, Regs(0x63f7dab7, 0x5ee76897, 0xc45e4fdb, 0x3b6d0b79, 0xce616779), 0xe6e60b69);
    NextRound(77, Regs(0xa079b7d9, 0x63f7dab7, 0xd7b9da25, 0xc45e4fdb, 0x3b6d0b79), 0x00f60a00);
    NextRound(78, Regs(0x860d21cc, 0xa079b7d9, 0xd8fdf6ad, 0xd7b9da25, 0xc45e4fdb), 0x5795ef4f);
    NextRound(79, Regs(0x5738d5e1, 0x860d21cc, 0x681e6df6, 0xd8fdf6ad, 0xd7b9da25), 0x822e0879);
  }

  lemma OneBlock(h: Regs, b: seq<Byte>)
    requires |b| == 64
    ensures Blocks(h, b) == Sum(h, Rounds(h, b, 80))
  {
    assert b[..0] == [] && b[0..] == b;
  }

  lemma FourBytesOf(w: Word, a: Byte, b: Byte, c: Byte, d: Byte)
    requires w == JoinBytes(a, b, c, d)
    ensures WordBytes(w) == [a, b, c, d]
  {
  }

  lemma ExampleValue()
    ensures Blocks(INITIAL, Block()) == Regs(0xa9993e36, 0x4706816a, 0xba3e2571, 0x7850c26c, 0x9cd0d89d)
  {
    Rounds80();
    OneBlock(INITIAL, Block());
  }

  lemma ExampleDigest(r: Regs)
    requires r == Regs(0xa9993e36, 0x4706816a, 0xba3e2571, 0x7850c26c, 0x9cd0d89d)
    ensures Digest(r) == [0xa9, 0x99, 0x3e, 0x36, 0x47, 0x06, 0x81, 0x6a, 0xba, 0x3e,
                          0x25, 0x71, 0x78, 0x50, 0xc2, 0x6c, 0x9c, 0xd0, 0xd8, 0x9d]
  {
    FourBytesOf(r.a, 0xa9, 0x99, 0x3e, 0x36);
    FourBytesOf(r.b, 0x47, 0x06, 0x81, 0x6a);
    FourBytesOf(r.c, 0xba, 0x3e, 0x25, 0x71);
    FourBytesOf(r.d, 0x78, 0x50, 0xc2, 0x6c);
    FourBytesOf(r.e, 0x9c, 0xd0, 0xd8, 0x9d);
  }

  /** The digest of "abc". */
  lemma Example()
    ensures Sha1(ABC) == [0xa9, 0x99, 0x3e, 0x36, 0x47, 0x06, 0x81, 0x6a, 0xba, 0x3e,
                          0x25, 0x71, 0x78, 0x50, 0xc2, 0x6c, 0x9c, 0xd0, 0xd8, 0x9d]
  {
    PadIsBlock();
    ExampleValue();
    ExampleDigest(Blocks(INITIAL, Block()));
  }
}
