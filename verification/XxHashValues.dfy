/** Published values of XXH64: they fix what the steps of the algorithm compute. */
module XxHashValues {
  import opened XxHash

  // ------------------------------------------------------------------ inputs in pieces

  lemma {:induction false} WordFront(a: seq<bv8>, b: seq<bv8>, n: nat)
    requires n <= |a|
    ensures Word(a + b, n) == Word(a, n)
    decreases n
  {
    hide Below;
    if n > 0 {
      assert (a + b)[1..] == a[1..] + b;
      WordFront(a[1..], b, n - 1);
    }
  }

  lemma Take8(acc: bv64, w: seq<bv8>, t: seq<bv8>)
    requires |w| == 8
    ensures Consume(acc, w + t) == Consume(Eat8(acc, Word(w, 8)), t)
  {
    hide Eat8, Word;
    WordFront(w, t, 8);
    assert (w + t)[8..] == t;
  }

  lemma Take4(acc: bv64, w: seq<bv8>, t: seq<bv8>)
    requires |w| == 4 && |t| < 4
    ensures Consume(acc, w + t) == Consume(Eat4(acc, Word(w, 4)), t)
  {
    hide Eat4, Word;
    WordFront(w, t, 4);
    assert (w + t)[4..] == t;
  }

  lemma TakeNone(acc: bv64)
    ensures Consume(acc, []) == acc
  {
  }

  lemma Take1(acc: bv64, x: bv8)
    ensures Consume(acc, [x]) == Eat1(acc, x)
  {
    hide Eat1;
    assert [x][1..] == [];
  }

  lemma Take2(acc: bv64, x: bv8, y: bv8)
    ensures Consume(acc, [x, y]) == Eat1(Eat1(acc, x), y)
  {
    hide Eat1;
    assert [x, y][1..] == [y];
    Take1(Eat1(acc, x), y);
  }

  lemma Take3(acc: bv64, x: bv8, y: bv8, z: bv8)
    ensures Consume(acc, [x, y, z]) == Eat1(Eat1(Eat1(acc, x), y), z)
  {
    hide Eat1;
    assert [x, y, z][1..] == [y, z];
    Take2(Eat1(acc, x), y, z);
  }

  lemma FourWords(a: seq<bv8>, b: seq<bv8>, c: seq<bv8>, d: seq<bv8>)
    requires |a| == |b| == |c| == |d| == 8
    ensures var w := a + b + c + d;
            && |w| == 32 && w == a + (b + c + d) && w[8..] == b + (c + d) && w[16..] == c + d && w[24..] == d
  {
  }

  lemma StripeOf(s: Lanes, a: seq<bv8>, b: seq<bv8>, c: seq<bv8>, d: seq<bv8>)
    requires |a| == |b| == |c| == |d| == 8
    ensures Stripe(s, a + b + c + d) ==
              Lanes(ProcessSingle(s.s0, Word(a, 8)), ProcessSingle(s.s1, Word(b, 8)),
                    ProcessSingle(s.s2, Word(c, 8)), ProcessSingle(s.s3, Word(d, 8)))
  {
    hide ProcessSingle, Word;
    FourWords(a, b, c, d);
    WordFront(a, b + c + d, 8);
    WordFront(b, c + d, 8);
    WordFront(c, d, 8);
  }

  lemma OneStripe(s: Lanes, w: seq<bv8>)
    requires |w| == 32
    ensures Stripes(s, w) == Stripe(s, w)
  {
    hide Stripe;
    assert w[..32] == w && w[32..] == [];
  }

  lemma WholeTail(t: seq<bv8>)
    requires |t| < 32
    ensures Tail(t) == t
  {
  }

  lemma ShortHash(seed: bv64, t: seq<bv8>)
    requires |t| < 32
    ensures Xxh64(seed, t) == Avalanche(Consume(AddLength(ShortStart(seed), |t|), t))
  {
    hide Avalanche, Consume, ShortStart, AddLength, Converge, Stripes, Initial, Tail;
    SmallLength(|t|);
    WholeTail(t);
  }

  lemma LongHash(seed: bv64, a: seq<bv8>, t: seq<bv8>)
    requires 0 < |a| < 1000 && |a| % 32 == 0 && |t| < 32
    ensures Xxh64(seed, a + t) == Avalanche(Consume(AddLength(Converge(Stripes(Initial(seed), a)), |a| + |t|), t))
  {
    hide Avalanche, Consume, Converge, AddLength, Stripes, Initial;
    SmallLength(|a| + |t|);
    StripesShort(Initial(seed), a + t, |a|);
    assert (a + t)[..|a|] == a && (a + t)[|a|..] == t;
  }

  // ------------------------------------------------------------------ inputs below one stripe

  /** The empty input. */
  lemma EmptyValues()
    ensures Xxh64(0, []) == 0xEF46DB3751D8E999
    ensures Xxh64(2654435761, []) == 0xAC75FDA2929B17EF
  {
    hide Consume;
    ShortHash(0, []);
    ShortHash(2654435761, []);
    TakeNone(AddLength(ShortStart(0), 0));
    TakeNone(AddLength(ShortStart(2654435761), 0));
  }

  lemma ValueOfASteps()
    ensures AddLength(ShortStart(0), 1) == 0x27D4EB2F165667C6
    ensures Eat1(0x27D4EB2F165667C6, 0x61) == 0xB86597E419D4D215
    ensures Avalanche(0xB86597E419D4D215) == 0xD24EC4F1A98C6E5B
  {
  }

  /** The letter "a". */
  lemma ValueOfA()
    ensures Xxh64(0, [0x61]) == 0xD24EC4F1A98C6E5B
  {
    hide *;
    ShortHash(0, [0x61]);
    ValueOfASteps();
    Take1(0x27D4EB2F165667C6, 0x61);
  }

  lemma ValueOfAbcSteps()
    ensures AddLength(ShortStart(0), 3) == 0x27D4EB2F165667C8
    ensures Eat1(0x27D4EB2F165667C8, 0x61) == 0x0E6D11BDC91F0215
    ensures Eat1(0x0E6D11BDC91F0215, 0x62) == 0x791983E9AB307069
    ensures Eat1(0x791983E9AB307069, 0x63) == 0xE87A46F8B9A4C39E
    ensures Avalanche(0xE87A46F8B9A4C39E) == 0x44BC2CF5AD770999
  {
  }

  /** The text "abc". */
  lemma ValueOfAbc()
    ensures Xxh64(0, [0x61, 0x62, 0x63]) == 0x44BC2CF5AD770999
  {
    hide *;
    ShortHash(0, [0x61, 0x62, 0x63]);
    ValueOfAbcSteps();
    Take3(0x27D4EB2F165667C8, 0x61, 0x62, 0x63);
  }

  lemma ValueOfDigestSteps()
    ensures AddLength(ShortStart(0), 14) == 0x27D4EB2F165667D3
    ensures Word([0x6D, 0x65, 0x73, 0x73, 0x61, 0x67, 0x65, 0x20], 8) == 0x206567617373656D
    ensures Eat8(0x27D4EB2F165667D3, 0x206567617373656D) == 0x5E53DDCB23408DD4
    ensures Word([0x64, 0x69, 0x67, 0x65], 4) == 0x0000000065676964
    ensures Eat4(0x5E53DDCB23408DD4, 0x0000000065676964) == 0xB88A2DA1DAE609DA
    ensures Eat1(0xB88A2DA1DAE609DA, 0x73) == 0x2E1860D6D87A26A7
    ensures Eat1(0x2E1860D6D87A26A7, 0x74) == 0x39623DB95CA03705
    ensures Avalanche(0x39623DB95CA03705) == 0x066ED728FCEEB3BE
  {
  }

  /** The text "message digest". */
  lemma ValueOfDigest()
    ensures Xxh64(0, [0x6D, 0x65, 0x73, 0x73, 0x61, 0x67, 0x65, 0x20] +
                     ([0x64, 0x69, 0x67, 0x65] + [0x73, 0x74])) == 0x066ED728FCEEB3BE
  {
    hide *;
    ShortHash(0, [0x6D, 0x65, 0x73, 0x73, 0x61, 0x67, 0x65, 0x20] + ([0x64, 0x69, 0x67, 0x65] + [0x73, 0x74]));
    ValueOfDigestSteps();
    Take8(0x27D4EB2F165667D3, [0x6D, 0x65, 0x73, 0x73, 0x61, 0x67, 0x65, 0x20],
          [0x64, 0x69, 0x67, 0x65] + [0x73, 0x74]);
    Take4(0x5E53DDCB23408DD4, [0x64, 0x69, 0x67, 0x65], [0x73, 0x74]);
    Take2(0xB88A2DA1DAE609DA, 0x73, 0x74);
  }

  lemma ValueOfSeededSteps()
    ensures AddLength(ShortStart(20141025), 6) == 0x27D4EB2F1789BBAC
    ensures Word([0x78, 0x78, 0x68, 0x61], 4) == 0x0000000061687878
    ensures Eat4(0x27D4EB2F1789BBAC, 0x0000000061687878) == 0x68F48ED34E7B6E94
    ensures Eat1(0x68F48ED34E7B6E94, 0x73) == 0x51586BA3E3E50BAE
    ensures Eat1(0x51586BA3E3E50BAE, 0x68) == 0x97382D3D7BFBE24F
    ensures Avalanche(0x97382D3D7BFBE24F) == 0xB559B98D844E0635
  {
  }

  /** The text "xxhash", with the seed 20141025. */
  lemma ValueOfSeeded()
    ensures Xxh64(20141025, [0x78, 0x78, 0x68, 0x61] + [0x73, 0x68]) == 0xB559B98D844E0635
  {
    hide *;
    ShortHash(20141025, [0x78, 0x78, 0x68, 0x61] + [0x73, 0x68]);
    ValueOfSeededSteps();
    Take4(0x27D4EB2F1789BBAC, [0x78, 0x78, 0x68, 0x61], [0x73, 0x68]);
    Take2(0x68F48ED34E7B6E94, 0x73, 0x68);
  }

  // ------------------------------------------------------------------ stripes

  lemma SpammishStripe()
    ensures Initial(0) == Lanes(0x60EA27EEADC0B5D6, 0xC2B2AE3D27D4EB4F,
                                0x0000000000000000, 0x61C8864E7A143579)
    ensures Word([0x4E, 0x6F, 0x62, 0x6F, 0x64, 0x79, 0x20, 0x69], 8) == 0x692079646F626F4E
    ensures ProcessSingle(0x60EA27EEADC0B5D6, 0x692079646F626F4E) == 0x37245127A4067E4B
    ensures Word([0x6E, 0x73, 0x70, 0x65, 0x63, 0x74, 0x73, 0x20], 8) == 0x207374636570736E
    ensures ProcessSingle(0xC2B2AE3D27D4EB4F, 0x207374636570736E) == 0x1B302B0A818F92CF
    ensures Word([0x74, 0x68, 0x65, 0x20, 0x73, 0x70, 0x61, 0x6D], 8) == 0x6D61707320656874
    ensures ProcessSingle(0x0000000000000000, 0x6D61707320656874) == 0xCD62D843D0580FCA
    ensures Word([0x6D, 0x69, 0x73, 0x68, 0x20, 0x72, 0x65, 0x70], 8) == 0x706572206873696D
    ensures ProcessSingle(0x61C8864E7A143579, 0x706572206873696D) == 0x1C16E43EF2142A4A
  {
  }

  lemma SpammishMerges()
    ensures MergeLane(0xC4DE2CE639FB8154, 0x37245127A4067E4B) == 0x30D40DDD00AEA144
    ensures MergeLane(0x30D40DDD00AEA144, 0x1B302B0A818F92CF) == 0xE5A1F095BF498698
    ensures MergeLane(0xE5A1F095BF498698, 0xCD62D843D0580FCA) == 0xF9CEE721E748096D
    ensures MergeLane(0xF9CEE721E748096D, 0x1C16E43EF2142A4A) == 0x84F22C421A11A8B5
  {
  }

  lemma SpammishMerged()
    ensures Converge(Lanes(0x37245127A4067E4B, 0x1B302B0A818F92CF,
                           0xCD62D843D0580FCA, 0x1C16E43EF2142A4A)) == 0x84F22C421A11A8B5
    ensures AddLength(0x84F22C421A11A8B5, 39) == 0x84F22C421A11A8DC
  {
    hide MergeLane;
    SpammishMerges();
  }

  lemma SpammishSteps()
    ensures Word([0x65, 0x74, 0x69, 0x74], 4) == 0x0000000074697465
    ensures Eat4(0x84F22C421A11A8DC, 0x0000000074697465) == 0x9FCA0F5D0AAA110F
    ensures Eat1(0x9FCA0F5D0AAA110F, 0x69) == 0x769671546F21BA14
    ensures Eat1(0x769671546F21BA14, 0x6F) == 0xEAE9B643C5F94E52
    ensures Eat1(0xEAE9B643C5F94E52, 0x6E) == 0x1D0A47483B37CC24
    ensures Avalanche(0x1D0A47483B37CC24) == 0xFBCEA83C8A378BF1
  {
  }

  /** The text "Nobody inspects the spammish repetition": one stripe and seven bytes. */
  lemma ValueOfSpammish()
    ensures Xxh64(0, [0x4E, 0x6F, 0x62, 0x6F, 0x64, 0x79, 0x20, 0x69] +
                     [0x6E, 0x73, 0x70, 0x65, 0x63, 0x74, 0x73, 0x20] +
                     [0x74, 0x68, 0x65, 0x20, 0x73, 0x70, 0x61, 0x6D] +
                     [0x6D, 0x69, 0x73, 0x68, 0x20, 0x72, 0x65, 0x70] +
                     ([0x65, 0x74, 0x69, 0x74] + [0x69, 0x6F, 0x6E])) == 0xFBCEA83C8A378BF1
  {
    hide *;
    var a, b, c, d := [0x4E, 0x6F, 0x62, 0x6F, 0x64, 0x79, 0x20, 0x69],
        [0x6E, 0x73, 0x70, 0x65, 0x63, 0x74, 0x73, 0x20],
        [0x74, 0x68, 0x65, 0x20, 0x73, 0x70, 0x61, 0x6D],
        [0x6D, 0x69, 0x73, 0x68, 0x20, 0x72, 0x65, 0x70];
    LongHash(0, a + b + c + d, [0x65, 0x74, 0x69, 0x74] + [0x69, 0x6F, 0x6E]);
    SpammishStripe();
    SpammishMerged();
    SpammishSteps();
    OneStripe(Initial(0), a + b + c + d);
    StripeOf(Initial(0), a, b, c, d);
    Take4(0x84F22C421A11A8DC, [0x65, 0x74, 0x69, 0x74], [0x69, 0x6F, 0x6E]);
    Take3(0x9FCA0F5D0AAA110F, 0x69, 0x6F, 0x6E);
  }

  lemma DigitsFirst()
    ensures Initial(0) == Lanes(0x60EA27EEADC0B5D6, 0xC2B2AE3D27D4EB4F,
                                0x0000000000000000, 0x61C8864E7A143579)
    ensures Word([0x31, 0x32, 0x33, 0x34, 0x35, 0x36, 0x37, 0x38], 8) == 0x3837363534333231
    ensures ProcessSingle(0x60EA27EEADC0B5D6, 0x3837363534333231) == 0xB58E3FB0B91F78F2
    ensures Word([0x39, 0x30, 0x31, 0x32, 0x33, 0x34, 0x35, 0x36], 8) == 0x3635343332313039
    ensures ProcessSingle(0xC2B2AE3D27D4EB4F, 0x3635343332313039) == 0xD59C638968ACD4B5
    ensures Word([0x37, 0x38, 0x39, 0x30, 0x31, 0x32, 0x33, 0x34], 8) == 0x3433323130393837
    ensures ProcessSingle(0x0000000000000000, 0x3433323130393837) == 0x00C8477E51B460C0
    ensures Word([0x35, 0x36, 0x37, 0x38, 0x39, 0x30, 0x31, 0x32], 8) == 0x3231303938373635
    ensures ProcessSingle(0x61C8864E7A143579, 0x3231303938373635) == 0x5E8BD1BCEAC2549A
  {
  }

  lemma DigitsSecond()
    ensures Word([0x33, 0x34, 0x35, 0x36, 0x37, 0x38, 0x39, 0x30], 8) == 0x3039383736353433
    ensures ProcessSingle(0xB58E3FB0B91F78F2, 0x3039383736353433) == 0x75124B68EA5EF9C5
    ensures Word([0x31, 0x32, 0x33, 0x34, 0x35, 0x36, 0x37, 0x38], 8) == 0x3837363534333231
    ensures ProcessSingle(0xD59C638968ACD4B5, 0x3837363534333231) == 0x7F278369ABD0F20D
    ensures Word([0x39, 0x30, 0x31, 0x32, 0x33, 0x34, 0x35, 0x36], 8) == 0x3635343332313039
    ensures ProcessSingle(0x00C8477E51B460C0, 0x3635343332313039) == 0xA3073E3CC3B4FD15
    ensures Word([0x37, 0x38, 0x39, 0x30, 0x31, 0x32, 0x33, 0x34], 8) == 0x3433323130393837
    ensures ProcessSingle(0x5E8BD1BCEAC2549A, 0x3433323130393837) == 0x46E92425831B59D2
  {
  }

  lemma DigitsMerges()
    ensures MergeLane(0x826024507451701D, 0x75124B68EA5EF9C5) == 0x3C2D1B456EE11B45
    ensures MergeLane(0x3C2D1B456EE11B45, 0x7F278369ABD0F20D) == 0x509A870D1EE7933B
    ensures MergeLane(0x509A870D1EE7933B, 0xA3073E3CC3B4FD15) == 0x6D2025A97109648C
    ensures MergeLane(0x6D2025A97109648C, 0x46E92425831B59D2) == 0xE831E53F7920798D
  {
  }

  lemma DigitsMerged()
    ensures Converge(Lanes(0x75124B68EA5EF9C5, 0x7F278369ABD0F20D,
                           0xA3073E3CC3B4FD15, 0x46E92425831B59D2)) == 0xE831E53F7920798D
    ensures AddLength(0xE831E53F7920798D, 80) == 0xE831E53F792079DD
  {
    hide MergeLane;
    DigitsMerges();
  }

  lemma DigitsSteps()
    ensures Word([0x35, 0x36, 0x37, 0x38, 0x39, 0x30, 0x31, 0x32], 8) == 0x3231303938373635
    ensures Eat8(0xE831E53F792079DD, 0x3231303938373635) == 0x9FB1A3F8E65DD3A8
    ensures Word([0x33, 0x34, 0x35, 0x36, 0x37, 0x38, 0x39, 0x30], 8) == 0x3039383736353433
    ensures Eat8(0x9FB1A3F8E65DD3A8, 0x3039383736353433) == 0x4763DDBD85C90C1E
    ensures Avalanche(0x4763DDBD85C90C1E) == 0xE04A477F19EE145D
  {
  }

  /** The text that repeats "1234567890" eight times: two stripes and two words. */
  lemma ValueOfDigits()
    ensures var t1 := [0x31, 0x32, 0x33, 0x34, 0x35, 0x36, 0x37, 0x38];
            var t2 := [0x39, 0x30, 0x31, 0x32, 0x33, 0x34, 0x35, 0x36];
            var t3 := [0x37, 0x38, 0x39, 0x30, 0x31, 0x32, 0x33, 0x34];
            var t4 := [0x35, 0x36, 0x37, 0x38, 0x39, 0x30, 0x31, 0x32];
            var t5 := [0x33, 0x34, 0x35, 0x36, 0x37, 0x38, 0x39, 0x30];
            Xxh64(0, (t1 + t2 + t3 + t4) + (t5 + t1 + t2 + t3) + (t4 + t5)) == 0xE04A477F19EE145D
  {
    hide *;
    var t1, t2 := [0x31, 0x32, 0x33, 0x34, 0x35, 0x36, 0x37, 0x38], [0x39, 0x30, 0x31, 0x32, 0x33, 0x34, 0x35, 0x36];
    var t3, t4 := [0x37, 0x38, 0x39, 0x30, 0x31, 0x32, 0x33, 0x34], [0x35, 0x36, 0x37, 0x38, 0x39, 0x30, 0x31, 0x32];
    var t5 := [0x33, 0x34, 0x35, 0x36, 0x37, 0x38, 0x39, 0x30];
    var x, y := t1 + t2 + t3 + t4, t5 + t1 + t2 + t3;
    assert t5 + [] == t5;
    LongHash(0, x + y, t4 + t5);
    DigitsFirst();
    DigitsSecond();
    DigitsMerged();
    DigitsSteps();
    StripesAppend(Initial(0), x, y);
    OneStripe(Initial(0), x);
    StripeOf(Initial(0), t1, t2, t3, t4);
    var s := Lanes(0xB58E3FB0B91F78F2, 0xD59C638968ACD4B5,
                   0x00C8477E51B460C0, 0x5E8BD1BCEAC2549A);
    OneStripe(s, y);
    StripeOf(s, t5, t1, t2, t3);
    Take8(0xE831E53F792079DD, t4, t5);
    Take8(0x9FB1A3F8E65DD3A8, t5, []);
    TakeNone(0x4763DDBD85C90C1E);
  }

  lemma ZerosSplit()
    ensures |Zeros(32)| == 32 && |Zeros(69)| == 69 && forall i :: 0 <= i < 32 ==> Zeros(32)[i] == 0
    ensures Zeros(69) == Zeros(32) + Zeros(32) + ([0, 0, 0, 0] + [0])
  {
  }

  lemma ValueOfSanityStripe()
    ensures Initial(2654435761) == Lanes(0x60EA27EF4BF82F87, 0xC2B2AE3DC60C6500,
                                         0x000000009E3779B1, 0x61C8864F184BAF2A)
    ensures Word([0x9E, 0xFF, 0x1F, 0x4B, 0x5E, 0x53, 0x2F, 0xDD], 8) == 0xDD2F535E4B1FFF9E
    ensures ProcessSingle(0x60EA27EF4BF82F87, 0xDD2F535E4B1FFF9E) == 0xD720D6104B9F4F46
    ensures Word([0xB5, 0x54, 0x4D, 0x2A, 0x95, 0x2B, 0x57, 0xAE], 8) == 0xAE572B952A4D54B5
    ensures ProcessSingle(0xC2B2AE3DC60C6500, 0xAE572B952A4D54B5) == 0xA3FBF2C752ADAD9A
    ensures Word([0x5D, 0xBA, 0x74, 0xE9, 0xD3, 0xA6, 0x4C, 0x98], 8) == 0x984CA6D3E974BA5D
    ensures ProcessSingle(0x000000009E3779B1, 0x984CA6D3E974BA5D) == 0x18511BF07C42E533
    ensures Word([0x30, 0x60, 0xC0, 0x80, 0x00, 0x00, 0x00, 0x00], 8) == 0x0000000080C06030
    ensures ProcessSingle(0x61C8864F184BAF2A, 0x0000000080C06030) == 0x4B891310298BA6B1
  {
  }

  lemma ValueOfSanityZeros()
    ensures ZeroLane(0xD720D6104B9F4F46) == 0x24D6E7C315F4C138
    ensures ZeroLane(0xA3FBF2C752ADAD9A) == 0x161AB8200097A135
    ensures ZeroLane(0x18511BF07C42E533) == 0xC441B30514108DC8
    ensures ZeroLane(0x4B891310298BA6B1) == 0x1BB20C726701D6B8
    ensures ZeroLane(0x24D6E7C315F4C138) == 0xE8824C3EC4A4A5A7
    ensures ZeroLane(0x161AB8200097A135) == 0xDEE0C05FB1602C70
    ensures ZeroLane(0xC441B30514108DC8) == 0x636191E7DF49478E
    ensures ZeroLane(0x1BB20C726701D6B8) == 0x6EA27555DFAE420F
  {
  }

  lemma ValueOfSanityMerges()
    ensures MergeLane(0x2FDAC503D616247D, 0xE8824C3EC4A4A5A7) == 0xCF99A629B91D9819
    ensures MergeLane(0xCF99A629B91D9819, 0xDEE0C05FB1602C70) == 0xE6EAA447ED5D20CC
    ensures MergeLane(0xE6EAA447ED5D20CC, 0x636191E7DF49478E) == 0xBC56BF2AA9BD8D78
    ensures MergeLane(0xBC56BF2AA9BD8D78, 0x6EA27555DFAE420F) == 0xA5CD96C3F709E47E
  {
  }

  lemma ValueOfSanityMerged()
    ensures Converge(Lanes(0xE8824C3EC4A4A5A7, 0xDEE0C05FB1602C70,
                           0x636191E7DF49478E, 0x6EA27555DFAE420F)) == 0xA5CD96C3F709E47E
    ensures AddLength(0xA5CD96C3F709E47E, 101) == 0xA5CD96C3F709E4E3
  {
    hide MergeLane;
    ValueOfSanityMerges();
  }

  lemma ValueOfSanitySteps()
    ensures Word([0x00, 0x00, 0x00, 0x00], 4) == 0x0000000000000000
    ensures Eat4(0xA5CD96C3F709E4E3, 0x0000000000000000) == 0x0561592E65450B9E
    ensures Eat1(0x0561592E65450B9E, 0x00) == 0x3CC9B5E66CFD94AD
    ensures Avalanche(0x3CC9B5E66CFD94AD) == 0xCAA65939306F1E21
  {
  }

  /** The 101 bytes of the self test of the reference implementation, with its seed: three stripes and
      five bytes. Bytes 28 and on are zero. */
  lemma ValueOfSanity()
    ensures Xxh64(2654435761, [0x9E, 0xFF, 0x1F, 0x4B, 0x5E, 0x53, 0x2F, 0xDD] +
                             [0xB5, 0x54, 0x4D, 0x2A, 0x95, 0x2B, 0x57, 0xAE] +
                             [0x5D, 0xBA, 0x74, 0xE9, 0xD3, 0xA6, 0x4C, 0x98] +
                             [0x30, 0x60, 0xC0, 0x80, 0x00, 0x00, 0x00, 0x00] +
                             Zeros(69)) == 0xCAA65939306F1E21
  {
    hide *;
    var a, b, c, d := [0x9E, 0xFF, 0x1F, 0x4B, 0x5E, 0x53, 0x2F, 0xDD],
        [0xB5, 0x54, 0x4D, 0x2A, 0x95, 0x2B, 0x57, 0xAE],
        [0x5D, 0xBA, 0x74, 0xE9, 0xD3, 0xA6, 0x4C, 0x98],
        [0x30, 0x60, 0xC0, 0x80, 0x00, 0x00, 0x00, 0x00];
    var w := a + b + c + d;
    ZerosSplit();
    assert w + Zeros(69) == (w + Zeros(32) + Zeros(32)) + ([0, 0, 0, 0] + [0]);
    LongHash(2654435761, w + Zeros(32) + Zeros(32), [0, 0, 0, 0] + [0]);
    ValueOfSanityStripe();
    ValueOfSanityZeros();
    ValueOfSanityMerged();
    ValueOfSanitySteps();
    StripesAppend(Initial(2654435761), w + Zeros(32), Zeros(32));
    StripesAppend(Initial(2654435761), w, Zeros(32));
    OneStripe(Initial(2654435761), w);
    StripeOf(Initial(2654435761), a, b, c, d);
    var s, z := Lanes(0xD720D6104B9F4F46, 0xA3FBF2C752ADAD9A,
                      0x18511BF07C42E533, 0x4B891310298BA6B1),
        Lanes(0x24D6E7C315F4C138, 0x161AB8200097A135,
              0xC441B30514108DC8, 0x1BB20C726701D6B8);
    OneStripe(s, Zeros(32));
    ZeroStripe(s, Zeros(32));
    OneStripe(z, Zeros(32));
    ZeroStripe(z, Zeros(32));
    Take4(0xA5CD96C3F709E4E3, [0, 0, 0, 0], [0]);
    Take1(0x0561592E65450B9E, 0);
  }
}
