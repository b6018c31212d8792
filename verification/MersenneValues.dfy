/** Known numbers of the 32-bit Mersenne Twister: they fix what the steps of the recurrence compute. */
module MersenneValues {
  import opened MersenneTwister

  // ------------------------------------------------------------------ seeded terms

  /** Word `i` stands for index `k`. */
  predicate Is(i: bv32, k: nat)
    decreases k
  {
    if k == 0 then i == 0 else Is(i - 1, k - 1)
  }

  lemma IsZero()
    ensures Is(0, 0)
  {
  }

  lemma NextSeven(i: bv32, k: nat)
    requires Is(i, k)
    ensures Is(i + 1, k + 1) && Is(i + 2, k + 2) && Is(i + 3, k + 3) && Is(i + 4, k + 4)
    ensures Is(i + 5, k + 5) && Is(i + 6, k + 6) && Is(i + 7, k + 7)
  {
    assert Is(i + 1, k + 1);
    assert Is(i + 2, k + 2);
    assert Is(i + 3, k + 3);
    assert Is(i + 4, k + 4);
    assert Is(i + 5, k + 5);
    assert Is(i + 6, k + 6);
  }

  lemma NextNat(i: bv32)
    requires i < 624
    ensures (i + 1) as nat == i as nat + 1
  {
  }

  lemma SmallWord(i: bv32)
    requires i as nat < 624
    ensures i < 624
  {
  }

  lemma {:induction false} IsNat(i: bv32, k: nat)
    requires Is(i, k) && k < N
    ensures i as nat == k
    decreases k
  {
    if k > 0 {
      IsNat(i - 1, k - 1);
      SmallWord(i - 1);
      NextNat(i - 1);
      assert i - 1 + 1 == i;
    }
  }

  lemma WordBack(i: bv32)
    ensures (i as nat) as bv32 == i
  {
  }

  /** The term with index `k`, from the one before. */
  lemma OneMore(k: nat, i: bv32, x: bv32, y: bv32)
    requires 0 < k < N && Is(i, k) && Term(5489, k - 1) == x && Next(x, i) == y
    ensures Term(5489, k) == y
  {
    hide Term, Next, Is;
    TermSeeded(5489, k);
    IsNat(i, k);
    WordBack(i);
  }

  /** Seven more terms, behind the one with index `k`. */
  lemma Seven(k: nat, i: bv32, x: bv32, a: bv32, b: bv32, c: bv32, d: bv32, e: bv32, f: bv32, g: bv32)
    requires k + 7 < N && Term(5489, k) == x && Is(i, k)
    requires Next(x, i + 1) == a && Next(a, i + 2) == b && Next(b, i + 3) == c && Next(c, i + 4) == d
    requires Next(d, i + 5) == e && Next(e, i + 6) == f && Next(f, i + 7) == g
    ensures Term(5489, k + 1) == a && Term(5489, k + 2) == b && Term(5489, k + 3) == c && Term(5489, k + 4) == d
    ensures Term(5489, k + 5) == e && Term(5489, k + 6) == f && Term(5489, k + 7) == g && Is(i + 7, k + 7)
  {
    hide Term, Next, Is;
    NextSeven(i, k);
    OneMore(k + 1, i + 1, x, a);
    OneMore(k + 2, i + 2, a, b);
    OneMore(k + 3, i + 3, b, c);
    OneMore(k + 4, i + 4, c, d);
    OneMore(k + 5, i + 5, d, e);
    OneMore(k + 6, i + 6, e, f);
    OneMore(k + 7, i + 7, f, g);
  }

  lemma Terms70()
    ensures Term(5489, 1) == 0x4D98EE96
    ensures Term(5489, 2) == 0xAF25F095
    ensures Term(5489, 3) == 0xAFD9BA96
    ensures Term(5489, 4) == 0x6FCBD068
    ensures Term(5489, 5) == 0x2CD06A72
    ensures Term(5489, 6) == 0x384F0100
    ensures Term(5489, 7) == 0x85B46507
    ensures Term(5489, 8) == 0x295E8801
    ensures Term(5489, 70) == 0xFF90227A && Is(70, 70)
  {
    hide Term, Is;
    TermZero(5489);
    IsZero();
    Seven(0, 0, 0x00001571, 0x4D98EE96, 0xAF25F095, 0xAFD9BA96, 0x6FCBD068, 0x2CD06A72, 0x384F0100, 0x85B46507);
    Seven(7, 7, 0x85B46507, 0x295E8801, 0x0D1B316E, 0x7B305E70, 0xBDB6BBA0, 0x1CEFB8F6, 0x8B499F1B, 0x3FDF25EB);
    Seven(14, 14, 0x3FDF25EB, 0xCBC1B8C6, 0x38B252C9, 0xDC273A5E, 0xAE40CBC3, 0x6AE1AC38, 0xB1C27391, 0x5E964414);
    Seven(21, 21, 0x5E964414, 0x744B195F, 0x6BC6502D, 0x67592D74, 0x19B58C42, 0xFA7DA824, 0x1FA1367E, 0x6635EDD2);
    Seven(28, 28, 0x6635EDD2, 0xB451BF5C, 0xC73BCE34, 0x7374CAD2, 0x9D63F05F, 0x629A99D2, 0xDC159B61, 0xFC5BBFCD);
    Seven(35, 35, 0xFC5BBFCD, 0xD079EA6A, 0x336AAC92, 0xAF6E37C0, 0x90A0D1B1, 0x5F9086C7, 0x438F2247, 0xB8B9FBC8);
    Seven(42, 42, 0xB8B9FBC8, 0x83A570DD, 0xA3C5DF27, 0x377ED6C6, 0x2D64B24C, 0xBC39042B, 0x2ED7955D, 0x2B87B2E2);
    Seven(49, 49, 0x2B87B2E2, 0x0772855C, 0xAF10D97F, 0xC474B385, 0x66C78A13, 0xB41B1B50, 0xE78EA991, 0xEF0608D2);
    Seven(56, 56, 0xEF0608D2, 0xF1D053AE, 0x29B3987B, 0x9FD1FBC2, 0x4FD212FC, 0x2AF5E30E, 0xA6E712C4, 0x8DA05E5D);
    Seven(63, 63, 0x8DA05E5D, 0x5B5F12BB, 0xE89DEDA3, 0x49D96062, 0xDE0D0252, 0xCD964339, 0xD4D89027, 0xFF90227A);
  }

  lemma Terms140()
    ensures Term(5489, 140) == 0x4C9C9621 && Is(140, 140)
  {
    hide Term, Is;
    Terms70();
    Seven(70, 70, 0xFF90227A, 0xF39F5B04, 0xD6C6A90B, 0x0C0DF871, 0xB28E7DDF, 0x609DED7C, 0xDCD1979D, 0x16265FA3);
    Seven(77, 77, 0x16265FA3, 0xA7C6F69D, 0x7DD3640A, 0x253D5BA7, 0x7CD28834, 0xFF671A3B, 0x483D506B, 0x3B1F7426);
    Seven(84, 84, 0x3B1F7426, 0x5D9B2953, 0xB0922FB0, 0x4B111391, 0x0A24C828, 0x08B86021, 0xA916965F, 0x24EC180C);
    Seven(91, 91, 0x24EC180C, 0xA257E918, 0x7023E19F, 0x453791B4, 0x63D959C8, 0xF64BFDAD, 0x2E7F3407, 0xCB384625);
    Seven(98, 98, 0xCB384625, 0x3DC80361, 0x6D5F3EA9, 0xB5B3A0AD, 0x09A50C71, 0x24DD61FC, 0x02AB84D4, 0xE98CDC0D);
    Seven(105, 105, 0xE98CDC0D, 0x72B84FF0, 0xC1168380, 0x16D7FE1B, 0xF0F0B414, 0x7FF85C81, 0xEDFCFEEF, 0xD1B0DF8C);
    Seven(112, 112, 0xD1B0DF8C, 0xD354BADC, 0xE888116D, 0x7104BED9, 0x78E8E3AC, 0x8B7468B6, 0x1DE1A37A, 0x7AD7C999);
    Seven(119, 119, 0x7AD7C999, 0x952CE170, 0x2178F473, 0x22AEFCD9, 0xCA48E318, 0x6A080D23, 0xD82260E7, 0x81A63E72);
    Seven(126, 126, 0x81A63E72, 0x131092AF, 0x3AD2868B, 0x30DC7858, 0xADCA933A, 0xA03D0D9B, 0xCF8C3EE1, 0x0029C1AF);
    Seven(133, 133, 0x0029C1AF, 0x88E91191, 0x3D609A86, 0xAB78AD66, 0x2922ECFD, 0x2285E55B, 0xF00E3072, 0x4C9C9621);
  }

  lemma Terms210()
    ensures Term(5489, 210) == 0xF11FD24F && Is(210, 210)
  {
    hide Term, Is;
    Terms140();
    Seven(140, 140, 0x4C9C9621, 0xA0FE5B2D, 0xF56F2119, 0x2D44F9D1, 0xC69E6905, 0x89DDA5EF, 0x87B94C13, 0xF6471C48);
    Seven(147, 147, 0xF6471C48, 0xA23F4D2B, 0x4B6362C2, 0xE5655285, 0x83CD4575, 0xF46A178B, 0x392B1141, 0x7F00983F);
    Seven(154, 154, 0x7F00983F, 0xBE673F11, 0x1D020E1B, 0x52190444, 0x010A9CD7, 0x14FFF072, 0xEBC4DF9A, 0x098418FE);
    Seven(161, 161, 0x098418FE, 0x496FCAD8, 0xE4982940, 0x02F22313, 0xB7D20224, 0x000B2FA4, 0x7E64905B, 0x99631E2A);
    Seven(168, 168, 0x99631E2A, 0x42564E71, 0xC116E2DA, 0x2D5CA148, 0x40D32A14, 0x9767D7F6, 0x2635C7F2, 0x6AD66529);
    Seven(175, 175, 0x6AD66529, 0x86D05178, 0x5E206FD3, 0x2561808C, 0x8116A3EF, 0x83238235, 0x8132CF68, 0x8DF18F88);
    Seven(182, 182, 0x8DF18F88, 0x6AE47C29, 0xB7AE6480, 0x63253A03, 0x77C8F584, 0xA0500B34, 0x2C0E530A, 0x895D1DAF);
    Seven(189, 189, 0x895D1DAF, 0xD2594AFF, 0x233F722B, 0x1F4E0EB7, 0xBAACBDF4, 0x118998D0, 0x7BC09AD3, 0xB995779E);
    Seven(196, 196, 0xB995779E, 0x4A3EAD51, 0x52AA3156, 0xBEEE071A, 0x075CA540, 0x00BC7309, 0x15283457, 0xFF40361E);
    Seven(203, 203, 0xFF40361E, 0xC815DF3D, 0xE7CB4243, 0x0965640E, 0x9BEDF855, 0x5D2A8A23, 0xA4A2B23B, 0xF11FD24F);
  }

  lemma Terms280()
    ensures Term(5489, 227) == 0x9A49043D
    ensures Term(5489, 228) == 0xA3CD64BF
    ensures Term(5489, 280) == 0xB92A6B58 && Is(280, 280)
  {
    hide Term, Is;
    Terms210();
    Seven(210, 210, 0xF11FD24F, 0xF92CA4CF, 0xC4623150, 0x6467E194, 0x3BC7BD9F, 0xBDA0E792, 0x01576CA8, 0x293BC721);
    Seven(217, 217, 0x293BC721, 0xA00D39DF, 0x0A3A1A0C, 0xE730B398, 0x9391D004, 0x7904493C, 0xC68D8AF0, 0x65D8DDBF);
    Seven(224, 224, 0x65D8DDBF, 0x756C2AD7, 0xAA736D50, 0x9A49043D, 0xA3CD64BF, 0x081CE476, 0xB0E34974, 0x36362275);
    Seven(231, 231, 0x36362275, 0xA8FF3611, 0xBF258168, 0xBDF3C9BC, 0x145746E1, 0x978460B1, 0xC7DEF28C, 0x20AD3A59);
    Seven(238, 238, 0x20AD3A59, 0xBD00A70C, 0x640A6776, 0x11BA81E4, 0x8B5443E6, 0x1BCFCDE7, 0x437DDC17, 0x48099BA3);
    Seven(245, 245, 0x48099BA3, 0x298219E0, 0x354D1657, 0x98BF604B, 0x1C070EC6, 0xC51ACB18, 0x0C0095A2, 0x7BBCBBE6);
    Seven(252, 252, 0x7BBCBBE6, 0x6955C220, 0xAEA04103, 0xDB0A2F64, 0x9E33D3A3, 0xDC1AA886, 0xD256AA7B, 0xA6B37A5B);
    Seven(259, 259, 0xA6B37A5B, 0xB5B7E721, 0x3234ECD4, 0x0B6AE4AA, 0xAE313219, 0xCFF638AF, 0xED2C68E5, 0x3CF279C8);
    Seven(266, 266, 0x3CF279C8, 0x834E14F3, 0xD59A3D21, 0xD47F5177, 0x22FE37D2, 0xF8E968E9, 0xB3A19F62, 0x38AE41F1);
    Seven(273, 273, 0x38AE41F1, 0x17A0FE27, 0xE1982576, 0xCF45653D, 0xD641208B, 0xA5D29EBE, 0xCA2F3D43, 0xB92A6B58);
  }

  lemma Terms350()
    ensures Term(5489, 350) == 0x82816FB2 && Is(350, 350)
  {
    hide Term, Is;
    Terms280();
    Seven(280, 280, 0xB92A6B58, 0xA8A5859B, 0x50FB9777, 0x838AE8A9, 0xBCFE4F93, 0x01E0FE52, 0xB21C3978, 0x6A3AF841);
    Seven(287, 287, 0x6A3AF841, 0x41DE3260, 0x3246CA66, 0x49087160, 0x5AA8A568, 0xD6ED7491, 0xA70F20BF, 0xA2A810B7);
    Seven(294, 294, 0xA2A810B7, 0xEE327590, 0x35D90F27, 0x45CFDA8C, 0x3CD1AFCB, 0xA85AFF42, 0x193FF56C, 0x7686A0C9);
    Seven(301, 301, 0x7686A0C9, 0x94A07816, 0x3C1E1513, 0x68AA7CAF, 0x58BE4FD7, 0x52A906A0, 0x2BA2C7B8, 0x6A2244CC);
    Seven(308, 308, 0x6A2244CC, 0x93F1DB16, 0x3A35241A, 0x5BFF2979, 0x9B249590, 0x787825D3, 0x74624F14, 0x8CAE7184);
    Seven(315, 315, 0x8CAE7184, 0x7E3D811A, 0xA41863E4, 0x8E5F80FC, 0xF6A7D375, 0xB09A94CE, 0x8831E1BD, 0x2DB6489D);
    Seven(322, 322, 0x2DB6489D, 0xCE11AC34, 0xABA361F7, 0x3094C3EE, 0x8B0DAC2C, 0x4ACB8D6D, 0xDEF198E4, 0xE275F36C);
    Seven(329, 329, 0xE275F36C, 0xF3D87315, 0x77962EF9, 0x762B4124, 0x28F081E6, 0x71B1570C, 0x9FE84E70, 0xA5BFF64A);
    Seven(336, 336, 0xA5BFF64A, 0x3B80B3B9, 0x5003EA4F, 0xFA113019, 0x243BE596, 0xE898DB83, 0x92461AD6, 0x65D00AFB);
    Seven(343, 343, 0x65D00AFB, 0x45CA1FFA, 0x77B8F260, 0xC2548A9F, 0x83CC2CE7, 0x19D744B5, 0xA2A5F9C6, 0x82816FB2);
  }

  lemma Terms406()
    ensures Term(5489, 397) == 0xBDC68D6C
    ensures Term(5489, 398) == 0x6707ABF4
    ensures Term(5489, 399) == 0xD0BFF638
    ensures Term(5489, 400) == 0xB61EB9D7
    ensures Term(5489, 401) == 0x3C654F9A
    ensures Term(5489, 402) == 0x30C7D354
    ensures Term(5489, 403) == 0x663A55B7
    ensures Term(5489, 404) == 0xACDC3862
    ensures Term(5489, 406) == 0xFA0887BF && Is(406, 406)
  {
    hide Term, Is;
    Terms350();
    Seven(350, 350, 0x82816FB2, 0x0FA641CF, 0x4678BF0B, 0xDD25BA53, 0x48C752F2, 0x2AACC642, 0x90118B6E, 0x9A7CCF01);
    Seven(357, 357, 0x9A7CCF01, 0xAB1B4895, 0xCBBD73FA, 0xFC9E03A5, 0x5BD547E7, 0x5DE97528, 0x7CED2B98, 0xF31615C9);
    Seven(364, 364, 0xF31615C9, 0x89E5B41F, 0x7DCE95DF, 0xF1C6F005, 0xF219E9CE, 0x42F2F452, 0x20DFD131, 0x2397C2C8);
    Seven(371, 371, 0x2397C2C8, 0xF594E25C, 0xD57B27F0, 0xBD9CCF55, 0x19345DCA, 0xC0601C2A, 0x661C0EA6, 0x277A285D);
    Seven(378, 378, 0x277A285D, 0x4956B32C, 0x3752C73D, 0x4EF3418E, 0x72F765E9, 0x6A7C5E07, 0xAB8C4FDE, 0xC41C3F4D);
    Seven(385, 385, 0xC41C3F4D, 0x2027B948, 0x62CBA2EB, 0x20EC81D6, 0x63A4C0F3, 0xD9DFA300, 0x5C8CECB6, 0x9B4854BB);
    Seven(392, 392, 0x9B4854BB, 0x55EF6F86, 0x0AD740CD, 0xBA35476C, 0x56410DF2, 0xBDC68D6C, 0x6707ABF4, 0xD0BFF638);
    Seven(399, 399, 0xD0BFF638, 0xB61EB9D7, 0x3C654F9A, 0x30C7D354, 0x663A55B7, 0xACDC3862, 0x17AD9F75, 0xFA0887BF);
  }

  // ------------------------------------------------------------------ twisted terms and numbers

  lemma Step0()
    ensures Twist(0x00001571, 0x4D98EE96) == 0x26CC774B
    ensures Combine(0xBDC68D6C, 0x26CC774B) == 0x9B0AFA27
    ensures Temper(0x9B0AFA27) == 3499211612
  {
  }

  lemma Step1()
    ensures Twist(0x4D98EE96, 0xAF25F095) == 0x8E9A4895
    ensures Combine(0x6707ABF4, 0x8E9A4895) == 0xE99DE361
    ensures Temper(0xE99DE361) == 581869302
  {
  }

  lemma Step2()
    ensures Twist(0xAF25F095, 0xAFD9BA96) == 0x57ECDD4B
    ensures Combine(0xD0BFF638, 0x57ECDD4B) == 0x87532B73
    ensures Temper(0x87532B73) == 3890346734
  {
  }

  lemma Step3()
    ensures Twist(0xAFD9BA96, 0x6FCBD068) == 0x77E5E834
    ensures Combine(0xB61EB9D7, 0x77E5E834) == 0xC1FB51E3
    ensures Temper(0xC1FB51E3) == 3586334585
  {
  }

  lemma Step4()
    ensures Twist(0x6FCBD068, 0x2CD06A72) == 0x16683539
    ensures Combine(0x3C654F9A, 0x16683539) == 0x2A0D7AA3
    ensures Temper(0x2A0D7AA3) == 545404204
  {
  }

  lemma Step5()
    ensures Twist(0x2CD06A72, 0x384F0100) == 0x1C278080
    ensures Combine(0x30C7D354, 0x1C278080) == 0x2CE053D4
    ensures Temper(0x2CE053D4) == 4161255391
  {
  }

  lemma Step6()
    ensures Twist(0x384F0100, 0x85B46507) == 0x9BD2825C
    ensures Combine(0x663A55B7, 0x9BD2825C) == 0xFDE8D7EB
    ensures Temper(0xFDE8D7EB) == 3922919429
  {
  }

  lemma Step7()
    ensures Twist(0x85B46507, 0x295E8801) == 0xCDA7F4DF
    ensures Combine(0xACDC3862, 0xCDA7F4DF) == 0x617BCCBD
    ensures Temper(0x617BCCBD) == 949333985
  {
  }

  lemma Step227()
    ensures Twist(0x9A49043D, 0xA3CD64BF) == 0xC8EE0280
    ensures Combine(0x9B0AFA27, 0xC8EE0280) == 0x53E4F8A7
    ensures Temper(0x53E4F8A7) == 2397746050
  {
  }

  /** The term behind the first N is twisted from three others. */
  lemma Twisted(k: nat, upper: bv32, lower: bv32, far: bv32, y: bv32)
    requires Term(5489, k) == upper && Term(5489, k + 1) == lower && Term(5489, k + M) == far
    requires Combine(far, Twist(upper, lower)) == y
    ensures Term(5489, N + k) == y
  {
    hide Term, Twist, Combine;
    TermTwisted(5489, k);
  }

  /** Numbers of the sequence with the seed 5489: the first eight, and the first one for which a term
      is needed that has been twisted itself. */
  lemma KnownNumbers()
    ensures Temper(Term(5489, N + 0)) == 3499211612
    ensures Temper(Term(5489, N + 1)) == 581869302
    ensures Temper(Term(5489, N + 2)) == 3890346734
    ensures Temper(Term(5489, N + 3)) == 3586334585
    ensures Temper(Term(5489, N + 4)) == 545404204
    ensures Temper(Term(5489, N + 5)) == 4161255391
    ensures Temper(Term(5489, N + 6)) == 3922919429
    ensures Temper(Term(5489, N + 7)) == 949333985
    ensures Temper(Term(5489, N + 227)) == 2397746050
  {
    hide Term, Temper, Twist, Combine, Is;
    TermZero(5489);
    Terms70();
    Terms280();
    Terms406();
    Step0();
    Twisted(0, 0x00001571, 0x4D98EE96, 0xBDC68D6C, 0x9B0AFA27);
    Step1();
    Twisted(1, 0x4D98EE96, 0xAF25F095, 0x6707ABF4, 0xE99DE361);
    Step2();
    Twisted(2, 0xAF25F095, 0xAFD9BA96, 0xD0BFF638, 0x87532B73);
    Step3();
    Twisted(3, 0xAFD9BA96, 0x6FCBD068, 0xB61EB9D7, 0xC1FB51E3);
    Step4();
    Twisted(4, 0x6FCBD068, 0x2CD06A72, 0x3C654F9A, 0x2A0D7AA3);
    Step5();
    Twisted(5, 0x2CD06A72, 0x384F0100, 0x30C7D354, 0x2CE053D4);
    Step6();
    Twisted(6, 0x384F0100, 0x85B46507, 0x663A55B7, 0xFDE8D7EB);
    Step7();
    Twisted(7, 0x85B46507, 0x295E8801, 0xACDC3862, 0x617BCCBD);
    Step227();
    Twisted(227, 0x9A49043D, 0xA3CD64BF, 0x9B0AFA27, 0x53E4F8A7);
  }

  /** What a generator with this seed returns. */
  method FirstNumbers() returns (ys: seq<bv32>)
    ensures |ys| == 228
    ensures ys[0] == 3499211612
    ensures ys[1] == 581869302
    ensures ys[2] == 3890346734
    ensures ys[3] == 3586334585
    ensures ys[4] == 545404204
    ensures ys[5] == 4161255391
    ensures ys[6] == 3922919429
    ensures ys[7] == 949333985
    ensures ys[227] == 2397746050
  {
    hide Term, Temper;
    var random := new Random(5489);
    ys := [];
    while |ys| < 228
      invariant random.Valid() && random.seed == 5489 && random.drawn == |ys| <= 228
      invariant fresh(random) && fresh(random.mt)
      invariant forall k: nat :: k < |ys| ==> ys[k] == Temper(Term(5489, N + k))
      decreases 228 - |ys|
    {
      var y := random.Number();
      ys := ys + [y];
    }
    KnownNumbers();
  }
}
