/**
 The worked example of FIPS PUB 180-1, appendix A: the SHA-1 of the three octets "abc", traced
 through the message schedule and the eighty steps.
 */
module Sha1Answer {
  import opened Sha1Spec
  import opened Sha1Context
  import opened Sha1Runs

  const ABC: seq<Octet> := [0x61, 0x62, 0x63]

  /** The padded message, which is a single block. */
  function AbcBlock(): Block {
    ABC + [0x80] + Zeros(59) + [0x18]
  }

  lemma AbcLength()
    ensures BigEndian(24, 8) == [0, 0, 0, 0, 0, 0, 0, 0x18]
  {
    BigEndianWord(24, 4);
    BigEndianWord(0, 0);
    SmallOctets();
    hide BigEndian, OctetOf;
    assert BigEndian(24, 8) == BigEndian(0, 4) + [0, 0, 0, 0x18];
    assert BigEndian(0, 4) == BigEndian(0, 0) + [0, 0, 0, 0];
  }

  lemma SmallOctets()
    ensures OctetOf(0) == 0 && OctetOf(24) == 0x18 && BigEndian(0, 0) == []
  {
  }

  lemma AbcPadded()
    ensures Pad(ABC) == AbcBlock()
  {
    AbcLength();
    assert ZeroCount(3) == 52;
    hide BigEndian, ZeroCount;
    assert Pad(ABC) == ABC + [0x80] + Zeros(52) + [0, 0, 0, 0, 0, 0, 0, 0x18];
    assert AbcBlock() == ABC + [0x80] + Zeros(52) + [0, 0, 0, 0, 0, 0, 0, 0x18];
  }

  /** One more word of the schedule, from the four words it mixes. */
  lemma NextScheduled(t: nat, a: Word, b: Word, c: Word, d: Word, w: Word)
    requires t >= 16
    requires Schedule(AbcBlock(), t - 3) == a && Schedule(AbcBlock(), t - 8) == b
    requires Schedule(AbcBlock(), t - 14) == c && Schedule(AbcBlock(), t - 16) == d
    requires Mix(a, b, c, d) == w
    ensures Schedule(AbcBlock(), t) == w
  {
    hide Mix, AbcBlock;
  }

  /** One more step, from the word and the registers it starts with. */
  lemma NextStep(t: nat, w: Word, s: Chain, after: Chain) returns (s': Chain)
    requires Schedule(AbcBlock(), t) == w && Rounds(AbcBlock(), IV, t) == s && Step(t, w, s) == after
    ensures s' == after && Rounds(AbcBlock(), IV, t + 1) == s'
  {
    hide Step, Schedule, AbcBlock;
    s' := after;
  }

  lemma FirstWords()
    ensures Schedule(AbcBlock(), 0) == 0x61626380 && Schedule(AbcBlock(), 15) == 0x00000018
    ensures forall t :: 1 <= t < 15 ==> Schedule(AbcBlock(), t) == 0
  {
  }

  lemma Words16To31()
    ensures Schedule(AbcBlock(), 16) == 0xC2C4C700
    ensures Schedule(AbcBlock(), 17) == 0x00000000
    ensures Schedule(AbcBlock(), 18) == 0x00000030
    ensures Schedule(AbcBlock(), 19) == 0x85898E01
    ensures Schedule(AbcBlock(), 20) == 0x00000000
    ensures Schedule(AbcBlock(), 21) == 0x00000060
    ensures Schedule(AbcBlock(), 22) == 0x0B131C03
    ensures Schedule(AbcBlock(), 23) == 0x00000030
    ensures Schedule(AbcBlock(), 24) == 0x85898EC1
    ensures Schedule(AbcBlock(), 25) == 0x16263806
    ensures Schedule(AbcBlock(), 26) == 0x00000000
    ensures Schedule(AbcBlock(), 27) == 0x00000180
    ensures Schedule(AbcBlock(), 28) == 0x2C4C700C
    ensures Schedule(AbcBlock(), 29) == 0x000000F0
    ensures Schedule(AbcBlock(), 30) == 0x93AFB507
    ensures Schedule(AbcBlock(), 31) == 0x5898E048
  {
    FirstWords();
    hide Schedule, AbcBlock;
    NextScheduled(16, 0x00000000, 0x00000000, 0x00000000, 0x61626380, 0xC2C4C700);
    NextScheduled(17, 0x00000000, 0x00000000, 0x00000000, 0x00000000, 0x00000000);
    NextScheduled(18, 0x00000018, 0x00000000, 0x00000000, 0x00000000, 0x00000030);
    NextScheduled(19, 0xC2C4C700, 0x00000000, 0x00000000, 0x00000000, 0x85898E01);
    NextScheduled(20, 0x00000000, 0x00000000, 0x00000000, 0x00000000, 0x00000000);
    NextScheduled(21, 0x00000030, 0x00000000, 0x00000000, 0x00000000, 0x00000060);
    NextScheduled(22, 0x85898E01, 0x00000000, 0x00000000, 0x00000000, 0x0B131C03);
    NextScheduled(23, 0x00000000, 0x00000018, 0x00000000, 0x00000000, 0x00000030);
    NextScheduled(24, 0x00000060, 0xC2C4C700, 0x00000000, 0x00000000, 0x85898EC1);
    NextScheduled(25, 0x0B131C03, 0x00000000, 0x00000000, 0x00000000, 0x16263806);
    NextScheduled(26, 0x00000030, 0x00000030, 0x00000000, 0x00000000, 0x00000000);
    NextScheduled(27, 0x85898EC1, 0x85898E01, 0x00000000, 0x00000000, 0x00000180);
    NextScheduled(28, 0x16263806, 0x00000000, 0x00000000, 0x00000000, 0x2C4C700C);
    NextScheduled(29, 0x00000000, 0x00000060, 0x00000018, 0x00000000, 0x000000F0);
    NextScheduled(30, 0x00000180, 0x0B131C03, 0xC2C4C700, 0x00000000, 0x93AFB507);
    NextScheduled(31, 0x2C4C700C, 0x00000030, 0x00000000, 0x00000018, 0x5898E048);
  }

  lemma Words32To47()
    ensures Schedule(AbcBlock(), 32) == 0x8E9A9202
    ensures Schedule(AbcBlock(), 33) == 0x00000600
    ensures Schedule(AbcBlock(), 34) == 0xB131C0F0
    ensures Schedule(AbcBlock(), 35) == 0x16263BC6
    ensures Schedule(AbcBlock(), 36) == 0x4EBED41E
    ensures Schedule(AbcBlock(), 37) == 0x626380A1
    ensures Schedule(AbcBlock(), 38) == 0x16263806
    ensures Schedule(AbcBlock(), 39) == 0x000018C0
    ensures Schedule(AbcBlock(), 40) == 0xD2E138C4
    ensures Schedule(AbcBlock(), 41) == 0x00000F00
    ensures Schedule(AbcBlock(), 42) == 0x3AFB5079
    ensures Schedule(AbcBlock(), 43) == 0x898E04E5
    ensures Schedule(AbcBlock(), 44) == 0xE2BA3C2B
    ensures Schedule(AbcBlock(), 45) == 0x000060C0
    ensures Schedule(AbcBlock(), 46) == 0x053A37CD
    ensures Schedule(AbcBlock(), 47) == 0x74458547
  {
    Words16To31();
    hide Schedule, AbcBlock;
    NextScheduled(32, 0x000000F0, 0x85898EC1, 0x00000030, 0xC2C4C700, 0x8E9A9202);
    NextScheduled(33, 0x93AFB507, 0x16263806, 0x85898E01, 0x00000000, 0x00000600);
    NextScheduled(34, 0x5898E048, 0x00000000, 0x00000000, 0x00000030, 0xB131C0F0);
    NextScheduled(35, 0x8E9A9202, 0x00000180, 0x00000060, 0x85898E01, 0x16263BC6);
    NextScheduled(36, 0x00000600, 0x2C4C700C, 0x0B131C03, 0x00000000, 0x4EBED41E);
    NextScheduled(37, 0xB131C0F0, 0x000000F0, 0x00000030, 0x00000060, 0x626380A1);
    NextScheduled(38, 0x16263BC6, 0x93AFB507, 0x85898EC1, 0x0B131C03, 0x16263806);
    NextScheduled(39, 0x4EBED41E, 0x5898E048, 0x16263806, 0x00000030, 0x000018C0);
    NextScheduled(40, 0x626380A1, 0x8E9A9202, 0x00000000, 0x85898EC1, 0xD2E138C4);
    NextScheduled(41, 0x16263806, 0x00000600, 0x00000180, 0x16263806, 0x00000F00);
    NextScheduled(42, 0x000018C0, 0xB131C0F0, 0x2C4C700C, 0x00000000, 0x3AFB5079);
    NextScheduled(43, 0xD2E138C4, 0x16263BC6, 0x000000F0, 0x00000180, 0x898E04E5);
    NextScheduled(44, 0x00000F00, 0x4EBED41E, 0x93AFB507, 0x2C4C700C, 0xE2BA3C2B);
    NextScheduled(45, 0x3AFB5079, 0x626380A1, 0x5898E048, 0x000000F0, 0x000060C0);
    NextScheduled(46, 0x898E04E5, 0x16263806, 0x8E9A9202, 0x93AFB507, 0x053A37CD);
    NextScheduled(47, 0xE2BA3C2B, 0x000018C0, 0x00000600, 0x5898E048, 0x74458547);
  }

  lemma Words48To63()
    ensures Schedule(AbcBlock(), 48) == 0xDA9415ED
    ensures Schedule(AbcBlock(), 49) == 0x26380A16
    ensures Schedule(AbcBlock(), 50) == 0x626383A1
    ensures Schedule(AbcBlock(), 51) == 0x4EBF54DE
    ensures Schedule(AbcBlock(), 52) == 0x3835B44B
    ensures Schedule(AbcBlock(), 53) == 0x0000F600
    ensures Schedule(AbcBlock(), 54) == 0x1E84C7A3
    ensures Schedule(AbcBlock(), 55) == 0x98E04D98
    ensures Schedule(AbcBlock(), 56) == 0x651D16A0
    ensures Schedule(AbcBlock(), 57) == 0x62658CA1
    ensures Schedule(AbcBlock(), 58) == 0x458544D6
    ensures Schedule(AbcBlock(), 59) == 0x44584CB7
    ensures Schedule(AbcBlock(), 60) == 0x7BA06619
    ensures Schedule(AbcBlock(), 61) == 0x6380AEA2
    ensures Schedule(AbcBlock(), 62) == 0x0AE55269
    ensures Schedule(AbcBlock(), 63) == 0x627B49A1
  {
    Words32To47();
    hide Schedule, AbcBlock;
    NextScheduled(48, 0x000060C0, 0xD2E138C4, 0xB131C0F0, 0x8E9A9202, 0xDA9415ED);
    NextScheduled(49, 0x053A37CD, 0x00000F00, 0x16263BC6, 0x00000600, 0x26380A16);
    NextScheduled(50, 0x74458547, 0x3AFB5079, 0x4EBED41E, 0xB131C0F0, 0x626383A1);
    NextScheduled(51, 0xDA9415ED, 0x898E04E5, 0x626380A1, 0x16263BC6, 0x4EBF54DE);
    NextScheduled(52, 0x26380A16, 0xE2BA3C2B, 0x16263806, 0x4EBED41E, 0x3835B44B);
    NextScheduled(53, 0x626383A1, 0x000060C0, 0x000018C0, 0x626380A1, 0x0000F600);
    NextScheduled(54, 0x4EBF54DE, 0x053A37CD, 0xD2E138C4, 0x16263806, 0x1E84C7A3);
    NextScheduled(55, 0x3835B44B, 0x74458547, 0x00000F00, 0x000018C0, 0x98E04D98);
    NextScheduled(56, 0x0000F600, 0xDA9415ED, 0x3AFB5079, 0xD2E138C4, 0x651D16A0);
    NextScheduled(57, 0x1E84C7A3, 0x26380A16, 0x898E04E5, 0x00000F00, 0x62658CA1);
    NextScheduled(58, 0x98E04D98, 0x626383A1, 0xE2BA3C2B, 0x3AFB5079, 0x458544D6);
    NextScheduled(59, 0x651D16A0, 0x4EBF54DE, 0x000060C0, 0x898E04E5, 0x44584CB7);
    NextScheduled(60, 0x62658CA1, 0x3835B44B, 0x053A37CD, 0xE2BA3C2B, 0x7BA06619);
    NextScheduled(61, 0x458544D6, 0x0000F600, 0x74458547, 0x000060C0, 0x6380AEA2);
    NextScheduled(62, 0x44584CB7, 0x1E84C7A3, 0xDA9415ED, 0x053A37CD, 0x0AE55269);
    NextScheduled(63, 0x7BA06619, 0x98E04D98, 0x26380A16, 0x74458547, 0x627B49A1);
  }

  lemma Words64To79()
    ensures Schedule(AbcBlock(), 64) == 0x7CD45C9D
    ensures Schedule(AbcBlock(), 65) == 0x000F0000
    ensures Schedule(AbcBlock(), 66) == 0xFB50753A
    ensures Schedule(AbcBlock(), 67) == 0xEC6765E8
    ensures Schedule(AbcBlock(), 68) == 0xBA3C2BE2
    ensures Schedule(AbcBlock(), 69) == 0x0060C000
    ensures Schedule(AbcBlock(), 70) == 0x3A37CD05
    ensures Schedule(AbcBlock(), 71) == 0x458546F4
    ensures Schedule(AbcBlock(), 72) == 0xB8599DD6
    ensures Schedule(AbcBlock(), 73) == 0x380A1A26
    ensures Schedule(AbcBlock(), 74) == 0x01E02203
    ensures Schedule(AbcBlock(), 75) == 0xE7CC3456
    ensures Schedule(AbcBlock(), 76) == 0xE6E60B69
    ensures Schedule(AbcBlock(), 77) == 0x00F60A00
    ensures Schedule(AbcBlock(), 78) == 0x5795EF4F
    ensures Schedule(AbcBlock(), 79) == 0x822E0879
  {
    Words48To63();
    hide Schedule, AbcBlock;
    NextScheduled(64, 0x6380AEA2, 0x651D16A0, 0x626383A1, 0xDA9415ED, 0x7CD45C9D);
    NextScheduled(65, 0x0AE55269, 0x62658CA1, 0x4EBF54DE, 0x26380A16, 0x000F0000);
    NextScheduled(66, 0x627B49A1, 0x458544D6, 0x3835B44B, 0x626383A1, 0xFB50753A);
    NextScheduled(67, 0x7CD45C9D, 0x44584CB7, 0x0000F600, 0x4EBF54DE, 0xEC6765E8);
    NextScheduled(68, 0x000F0000, 0x7BA06619, 0x1E84C7A3, 0x3835B44B, 0xBA3C2BE2);
    NextScheduled(69, 0xFB50753A, 0x6380AEA2, 0x98E04D98, 0x0000F600, 0x0060C000);
    NextScheduled(70, 0xEC6765E8, 0x0AE55269, 0x651D16A0, 0x1E84C7A3, 0x3A37CD05);
    NextScheduled(71, 0xBA3C2BE2, 0x627B49A1, 0x62658CA1, 0x98E04D98, 0x458546F4);
    NextScheduled(72, 0x0060C000, 0x7CD45C9D, 0x458544D6, 0x651D16A0, 0xB8599DD6);
    NextScheduled(73, 0x3A37CD05, 0x000F0000, 0x44584CB7, 0x62658CA1, 0x380A1A26);
    NextScheduled(74, 0x458546F4, 0xFB50753A, 0x7BA06619, 0x458544D6, 0x01E02203);
    NextScheduled(75, 0xB8599DD6, 0xEC6765E8, 0x6380AEA2, 0x44584CB7, 0xE7CC3456);
    NextScheduled(76, 0x380A1A26, 0xBA3C2BE2, 0x0AE55269, 0x7BA06619, 0xE6E60B69);
    NextScheduled(77, 0x01E02203, 0x0060C000, 0x627B49A1, 0x6380AEA2, 0x00F60A00);
    NextScheduled(78, 0xE7CC3456, 0x3A37CD05, 0x7CD45C9D, 0x0AE55269, 0x5795EF4F);
    NextScheduled(79, 0xE6E60B69, 0x458546F4, 0x000F0000, 0x627B49A1, 0x822E0879);
  }

  lemma Steps0To9()
    ensures Rounds(AbcBlock(), IV, 10) == Chain(0x8351F929, 0x4B6AE328, 0x27A301F5, 0x664F8C30, 0x0FF1F290)
  {
    assert Rounds(AbcBlock(), IV, 0) == IV;
    FirstWords();
    hide Rounds, Schedule, AbcBlock;
    var s := Chain(0x67452301, 0xEFCDAB89, 0x98BADCFE, 0x10325476, 0xC3D2E1F0);
    s := NextStep(0, 0x61626380, s, Chain(0x0116FC33, 0x67452301, 0x7BF36AE2, 0x98BADCFE, 0x10325476));
    s := NextStep(1, 0x00000000, s, Chain(0x8990536D, 0x0116FC33, 0x59D148C0, 0x7BF36AE2, 0x98BADCFE));
    s := NextStep(2, 0x00000000, s, Chain(0xA1390F08, 0x8990536D, 0xC045BF0C, 0x59D148C0, 0x7BF36AE2));
    s := NextStep(3, 0x00000000, s, Chain(0xCDD8E11B, 0xA1390F08, 0x626414DB, 0xC045BF0C, 0x59D148C0));
    s := NextStep(4, 0x00000000, s, Chain(0xCFD499DE, 0xCDD8E11B, 0x284E43C2, 0x626414DB, 0xC045BF0C));
    s := NextStep(5, 0x00000000, s, Chain(0x3FC7CA40, 0xCFD499DE, 0xF3763846, 0x284E43C2, 0x626414DB));
    s := NextStep(6, 0x00000000, s, Chain(0x993E30C1, 0x3FC7CA40, 0xB3F52677, 0xF3763846, 0x284E43C2));
    s := NextStep(7, 0x00000000, s, Chain(0x9E8C07D4, 0x993E30C1, 0x0FF1F290, 0xB3F52677, 0xF3763846));
    s := NextStep(8, 0x00000000, s, Chain(0x4B6AE328, 0x9E8C07D4, 0x664F8C30, 0x0FF1F290, 0xB3F52677));
    s := NextStep(9, 0x00000000, s, Chain(0x8351F929, 0x4B6AE328, 0x27A301F5, 0x664F8C30, 0x0FF1F290));
  }

  lemma Steps10To19()
    ensures Rounds(AbcBlock(), IV, 20) == Chain(0xFD9E1D7D, 0xDC64901D, 0x20AA99CA, 0xD3A49608, 0xC82F758B)
  {
    Steps0To9();
    FirstWords();
    Words16To31();
    hide Rounds, Schedule, AbcBlock;
    var s := Chain(0x8351F929, 0x4B6AE328, 0x27A301F5, 0x664F8C30, 0x0FF1F290);
    s := NextStep(10, 0x00000000, s, Chain(0xFBDA9E89, 0x8351F929, 0x12DAB8CA, 0x27A301F5, 0x664F8C30));
    s := NextStep(11, 0x00000000, s, Chain(0x63188FE4, 0xFBDA9E89, 0x60D47E4A, 0x12DAB8CA, 0x27A301F5));
    s := NextStep(12, 0x00000000, s, Chain(0x4607B664, 0x63188FE4, 0x7EF6A7A2, 0x60D47E4A, 0x12DAB8CA));
    s := NextStep(13, 0x00000000, s, Chain(0x9128F695, 0x4607B664, 0x18C623F9, 0x7EF6A7A2, 0x60D47E4A));
    s := NextStep(14, 0x00000000, s, Chain(0x196BEE77, 0x9128F695, 0x1181ED99, 0x18C623F9, 0x7EF6A7A2));
    s := NextStep(15, 0x00000018, s, Chain(0x20BDD62F, 0x196BEE77, 0x644A3DA5, 0x1181ED99, 0x18C623F9));
    s := NextStep(16, 0xC2C4C700, s, Chain(0x4E925823, 0x20BDD62F, 0xC65AFB9D, 0x644A3DA5, 0x1181ED99));
    s := NextStep(17, 0x00000000, s, Chain(0x82AA6728, 0x4E925823, 0xC82F758B, 0xC65AFB9D, 0x644A3DA5));
    s := NextStep(18, 0x00000030, s, Chain(0xDC64901D, 0x82AA6728, 0xD3A49608, 0xC82F758B, 0xC65AFB9D));
    s := NextStep(19, 0x85898E01, s, Chain(0xFD9E1D7D, 0xDC64901D, 0x20AA99CA, 0xD3A49608, 0xC82F758B));
  }

  lemma Steps20To29()
    ensures Rounds(AbcBlock(), IV, 30) == Chain(0xC5FBAF5D, 0x8370B52E, 0xD2AA1365, 0x6F8D7EF5, 0x12104EE9)
  {
    Steps10To19();
    Words16To31();
    hide Rounds, Schedule, AbcBlock;
    var s := Chain(0xFD9E1D7D, 0xDC64901D, 0x20AA99CA, 0xD3A49608, 0xC82F758B);
    s := NextStep(20, 0x00000000, s, Chain(0x1A37B0CA, 0xFD9E1D7D, 0x77192407, 0x20AA99CA, 0xD3A49608));
    s := NextStep(21, 0x00000060, s, Chain(0x33A23BFC, 0x1A37B0CA, 0x7F67875F, 0x77192407, 0x20AA99CA));
    s := NextStep(22, 0x0B131C03, s, Chain(0x21283486, 0x33A23BFC, 0x868DEC32, 0x7F67875F, 0x77192407));
    s := NextStep(23, 0x00000030, s, Chain(0xD541F12D, 0x21283486, 0x0CE88EFF, 0x868DEC32, 0x7F67875F));
    s := NextStep(24, 0x85898EC1, s, Chain(0xC7567DC6, 0xD541F12D, 0x884A0D21, 0x0CE88EFF, 0x868DEC32));
    s := NextStep(25, 0x16263806, s, Chain(0x48413BA4, 0xC7567DC6, 0x75507C4B, 0x884A0D21, 0x0CE88EFF));
    s := NextStep(26, 0x00000000, s, Chain(0xBE35FBD5, 0x48413BA4, 0xB1D59F71, 0x75507C4B, 0x884A0D21));
    s := NextStep(27, 0x00000180, s, Chain(0x4AA84D97, 0xBE35FBD5, 0x12104EE9, 0xB1D59F71, 0x75507C4B));
    s := NextStep(28, 0x2C4C700C, s, Chain(0x8370B52E, 0x4AA84D97, 0x6F8D7EF5, 0x12104EE9, 0xB1D59F71));
    s := NextStep(29, 0x000000F0, s, Chain(0xC5FBAF5D, 0x8370B52E, 0xD2AA1365, 0x6F8D7EF5, 0x12104EE9));
  }

  lemma Steps30To39()
    ensures Rounds(AbcBlock(), IV, 40) == Chain(0x32DE1CBA, 0x4C986405, 0xF718E5CF, 0x03D447F6, 0xF72EEC32)
  {
    Steps20To29();
    Words16To31();
    Words32To47();
    hide Rounds, Schedule, AbcBlock;
    var s := Chain(0xC5FBAF5D, 0x8370B52E, 0xD2AA1365, 0x6F8D7EF5, 0x12104EE9);
    s := NextStep(30, 0x93AFB507, s, Chain(0x1267B407, 0xC5FBAF5D, 0xA0DC2D4B, 0xD2AA1365, 0x6F8D7EF5));
    s := NextStep(31, 0x5898E048, s, Chain(0x3B845D33, 0x1267B407, 0x717EEBD7, 0xA0DC2D4B, 0xD2AA1365));
    s := NextStep(32, 0x8E9A9202, s, Chain(0x046FAA0A, 0x3B845D33, 0xC499ED01, 0x717EEBD7, 0xA0DC2D4B));
    s := NextStep(33, 0x00000600, s, Chain(0x2C0EBC11, 0x046FAA0A, 0xCEE1174C, 0xC499ED01, 0x717EEBD7));
    s := NextStep(34, 0xB131C0F0, s, Chain(0x21796AD4, 0x2C0EBC11, 0x811BEA82, 0xCEE1174C, 0xC499ED01));
    s := NextStep(35, 0x16263BC6, s, Chain(0xDCBBB0CB, 0x21796AD4, 0x4B03AF04, 0x811BEA82, 0xCEE1174C));
    s := NextStep(36, 0x4EBED41E, s, Chain(0x0F511FD8, 0xDCBBB0CB, 0x085E5AB5, 0x4B03AF04, 0x811BEA82));
    s := NextStep(37, 0x626380A1, s, Chain(0xDC63973F, 0x0F511FD8, 0xF72EEC32, 0x085E5AB5, 0x4B03AF04));
    s := NextStep(38, 0x16263806, s, Chain(0x4C986405, 0xDC63973F, 0x03D447F6, 0xF72EEC32, 0x085E5AB5));
    s := NextStep(39, 0x000018C0, s, Chain(0x32DE1CBA, 0x4C986405, 0xF718E5CF, 0x03D447F6, 0xF72EEC32));
  }

  lemma Steps40To49()
    ensures Rounds(AbcBlock(), IV, 50) == Chain(0x120731C5, 0xBAF39337, 0xAFAB40B2, 0x2806E11B, 0x8714787C)
  {
    Steps30To39();
    Words32To47();
    Words48To63();
    hide Rounds, Schedule, AbcBlock;
    var s := Chain(0x32DE1CBA, 0x4C986405, 0xF718E5CF, 0x03D447F6, 0xF72EEC32);
    s := NextStep(40, 0xD2E138C4, s, Chain(0xFC87DEDF, 0x32DE1CBA, 0x53261901, 0xF718E5CF, 0x03D447F6));
    s := NextStep(41, 0x00000F00, s, Chain(0x970A0D5C, 0xFC87DEDF, 0x8CB7872E, 0x53261901, 0xF718E5CF));
    s := NextStep(42, 0x3AFB5079, s, Chain(0x7F193DC5, 0x970A0D5C, 0xFF21F7B7, 0x8CB7872E, 0x53261901));
    s := NextStep(43, 0x898E04E5, s, Chain(0xEE1B1AAF, 0x7F193DC5, 0x25C28357, 0xFF21F7B7, 0x8CB7872E));
    s := NextStep(44, 0xE2BA3C2B, s, Chain(0x40F28E09, 0xEE1B1AAF, 0x5FC64F71, 0x25C28357, 0xFF21F7B7));
    s := NextStep(45, 0x000060C0, s, Chain(0x1C51E1F2, 0x40F28E09, 0xFB86C6AB, 0x5FC64F71, 0x25C28357));
    s := NextStep(46, 0x053A37CD, s, Chain(0xA01B846C, 0x1C51E1F2, 0x503CA382, 0xFB86C6AB, 0x5FC64F71));
    s := NextStep(47, 0x74458547, s, Chain(0xBEAD02CA, 0xA01B846C, 0x8714787C, 0x503CA382, 0xFB86C6AB));
    s := NextStep(48, 0xDA9415ED, s, Chain(0xBAF39337, 0xBEAD02CA, 0x2806E11B, 0x8714787C, 0x503CA382));
    s := NextStep(49, 0x26380A16, s, Chain(0x120731C5, 0xBAF39337, 0xAFAB40B2, 0x2806E11B, 0x8714787C));
  }

  lemma Steps50To59()
    ensures Rounds(AbcBlock(), IV, 60) == Chain(0x3F52DE5A, 0x09D785FD, 0x3498BFD4, 0xF211824F, 0xD79915AB)
  {
    Steps40To49();
    Words48To63();
    hide Rounds, Schedule, AbcBlock;
    var s := Chain(0x120731C5, 0xBAF39337, 0xAFAB40B2, 0x2806E11B, 0x8714787C);
    s := NextStep(50, 0x626383A1, s, Chain(0x641DB2CE, 0x120731C5, 0xEEBCE4CD, 0xAFAB40B2, 0x2806E11B));
    s := NextStep(51, 0x4EBF54DE, s, Chain(0x3847AD66, 0x641DB2CE, 0x4481CC71, 0xEEBCE4CD, 0xAFAB40B2));
    s := NextStep(52, 0x3835B44B, s, Chain(0xE490436D, 0x3847AD66, 0x99076CB3, 0x4481CC71, 0xEEBCE4CD));
    s := NextStep(53, 0x0000F600, s, Chain(0x27E9F1D8, 0xE490436D, 0x8E11EB59, 0x99076CB3, 0x4481CC71));
    s := NextStep(54, 0x1E84C7A3, s, Chain(0x7B71F76D, 0x27E9F1D8, 0x792410DB, 0x8E11EB59, 0x99076CB3));
    s := NextStep(55, 0x98E04D98, s, Chain(0x5E6456AF, 0x7B71F76D, 0x09FA7C76, 0x792410DB, 0x8E11EB59));
    s := NextStep(56, 0x651D16A0, s, Chain(0xC846093F, 0x5E6456AF, 0x5EDC7DDB, 0x09FA7C76, 0x792410DB));
    s := NextStep(57, 0x62658CA1, s, Chain(0xD262FF50, 0xC846093F, 0xD79915AB, 0x5EDC7DDB, 0x09FA7C76));
    s := NextStep(58, 0x458544D6, s, Chain(0x09D785FD, 0xD262FF50, 0xF211824F, 0xD79915AB, 0x5EDC7DDB));
    s := NextStep(59, 0x44584CB7, s, Chain(0x3F52DE5A, 0x09D785FD, 0x3498BFD4, 0xF211824F, 0xD79915AB));
  }

  lemma Steps60To69()
    ensures Rounds(AbcBlock(), IV, 70) == Chain(0x3F2588C2, 0x497093C0, 0xDE37534A, 0x030F7CAD, 0x4405957E)
  {
    Steps50To59();
    Words48To63();
    Words64To79();
    hide Rounds, Schedule, AbcBlock;
    var s := Chain(0x3F52DE5A, 0x09D785FD, 0x3498BFD4, 0xF211824F, 0xD79915AB);
    s := NextStep(60, 0x7BA06619, s, Chain(0xD756C147, 0x3F52DE5A, 0x4275E17F, 0x3498BFD4, 0xF211824F));
    s := NextStep(61, 0x6380AEA2, s, Chain(0x548C9CB2, 0xD756C147, 0x8FD4B796, 0x4275E17F, 0x3498BFD4));
    s := NextStep(62, 0x0AE55269, s, Chain(0xB66C020B, 0x548C9CB2, 0xF5D5B051, 0x8FD4B796, 0x4275E17F));
    s := NextStep(63, 0x627B49A1, s, Chain(0x6B61C9E1, 0xB66C020B, 0x9523272C, 0xF5D5B051, 0x8FD4B796));
    s := NextStep(64, 0x7CD45C9D, s, Chain(0x19DFA7AC, 0x6B61C9E1, 0xED9B0082, 0x9523272C, 0xF5D5B051));
    s := NextStep(65, 0x000F0000, s, Chain(0x101655F9, 0x19DFA7AC, 0x5AD87278, 0xED9B0082, 0x9523272C));
    s := NextStep(66, 0xFB50753A, s, Chain(0x0C3DF2B4, 0x101655F9, 0x0677E9EB, 0x5AD87278, 0xED9B0082));
    s := NextStep(67, 0xEC6765E8, s, Chain(0x78DD4D2B, 0x0C3DF2B4, 0x4405957E, 0x0677E9EB, 0x5AD87278));
    s := NextStep(68, 0xBA3C2BE2, s, Chain(0x497093C0, 0x78DD4D2B, 0x030F7CAD, 0x4405957E, 0x0677E9EB));
    s := NextStep(69, 0x0060C000, s, Chain(0x3F2588C2, 0x497093C0, 0xDE37534A, 0x030F7CAD, 0x4405957E));
  }

  lemma Steps70To79()
    ensures Rounds(AbcBlock(), IV, 80) == Chain(0x42541B35, 0x5738D5E1, 0x21834873, 0x681E6DF6, 0xD8FDF6AD)
  {
    Steps60To69();
    Words64To79();
    hide Rounds, Schedule, AbcBlock;
    var s := Chain(0x3F2588C2, 0x497093C0, 0xDE37534A, 0x030F7CAD, 0x4405957E);
    s := NextStep(70, 0x3A37CD05, s, Chain(0xC199F8C7, 0x3F2588C2, 0x125C24F0, 0xDE37534A, 0x030F7CAD));
    s := NextStep(71, 0x458546F4, s, Chain(0x39859DE7, 0xC199F8C7, 0x8FC96230, 0x125C24F0, 0xDE37534A));
    s := NextStep(72, 0xB8599DD6, s, Chain(0xEDB42DE4, 0x39859DE7, 0xF0667E31, 0x8FC96230, 0x125C24F0));
    s := NextStep(73, 0x380A1A26, s, Chain(0x11793F6F, 0xEDB42DE4, 0xCE616779, 0xF0667E31, 0x8FC96230));
    s := NextStep(74, 0x01E02203, s, Chain(0x5EE76897, 0x11793F6F, 0x3B6D0B79, 0xCE616779, 0xF0667E31));
    s := NextStep(75, 0xE7CC3456, s, Chain(0x63F7DAB7, 0x5EE76897, 0xC45E4FDB, 0x3B6D0B79, 0xCE616779));
    s := NextStep(76, 0xE6E60B69, s, Chain(0xA079B7D9, 0x63F7DAB7, 0xD7B9DA25, 0xC45E4FDB, 0x3B6D0B79));
    s := NextStep(77, 0x00F60A00, s, Chain(0x860D21CC, 0xA079B7D9, 0xD8FDF6AD, 0xD7B9DA25, 0xC45E4FDB));
    s := NextStep(78, 0x5795EF4F, s, Chain(0x5738D5E1, 0x860D21CC, 0x681E6DF6, 0xD8FDF6AD, 0xD7B9DA25));
    s := NextStep(79, 0x822E0879, s, Chain(0x42541B35, 0x5738D5E1, 0x21834873, 0x681E6DF6, 0xD8FDF6AD));
  }

  /** The chaining words of the answer. */
  lemma AbcAnswer()
    ensures Sha1(ABC) == Chain(0xA9993E36, 0x4706816A, 0xBA3E2571, 0x7850C26C, 0x9CD0D89D)
  {
    AbcPadded();
    Steps70To79();
    hide Rounds, Schedule, AbcBlock;
    FoldOneMore(IV, [], AbcBlock());
    assert [] + AbcBlock() == AbcBlock();
  }

  const ABC_DIGEST: seq<Octet> :=
    [0xA9, 0x99, 0x3E, 0x36, 0x47, 0x06, 0x81, 0x6A, 0xBA, 0x3E,
     0x25, 0x71, 0x78, 0x50, 0xC2, 0x6C, 0x9C, 0xD0, 0xD8, 0x9D]

  /** The same answer as twenty octets. */
  lemma AbcDigest()
    ensures DigestOctets(Sha1(ABC)) == ABC_DIGEST
  {
    hide Sha1;
    AbcAnswer();
  }

  /** What the driver writes when a port delivers "abc" in one read or in two. */
  method HashAbc() returns (whole: array<Octet>, cut: array<Octet>)
    ensures whole[..] == cut[..] == ABC_DIGEST
  {
    hide Sha1;
    AbcDigest();
    var pieces: seq<seq<Octet>> := [[0x61, 0x62], [0x63]];
    assert [ABC][1..] == [] && pieces[1..] == [[0x63]] && pieces[1..][1..] == [];
    assert pieces[0] + [0x63] == ABC;
    assert Concat(pieces[1..]) == [0x63] && Concat(pieces) == pieces[0] + Concat(pieces[1..]);
    assert Concat([ABC]) == ABC && Concat(pieces) == ABC;
    whole := HashPort([ABC]);
    cut := HashPort(pieces);
  }
}
