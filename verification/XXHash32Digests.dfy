/** xxhash.h: digests published for seed 0. They fix the constants, the rotations and the order of the 32-bit hash. */
module XXHash32Digests {
  import opened Words
  import opened XXHash32
  import opened XXHash32Mixing

  lemma SeedValue()
    ensures SeedLanes(0) == Lanes(0x2423_4428, 0x85EB_CA77, 0x0000_0000, 0x61C8_864F)
    ensures ShortStart(0) == 0x1656_67B1
  {
  }

  lemma FirstLane(seed: bv32)
    ensures SeedLanes(seed).a == seed + 0x2423_4428
  {
  }

  lemma SecondLane(seed: bv32)
    ensures SeedLanes(seed).b == seed + 0x85EB_CA77
  {
  }

  lemma FourthLane(seed: bv32)
    ensures SeedLanes(seed).d == seed + 0x61C8_864F
  {
  }

  /** A seed is added to each lane of the seed 0. */
  lemma SeedAdds(seed: bv32)
    ensures SeedLanes(seed) == Lanes(seed + 0x2423_4428, seed + 0x85EB_CA77, seed, seed + 0x61C8_864F)
  {
    hide SeedLanes;
    FirstLane(seed);
    SecondLane(seed);
    ThirdLane(seed);
    FourthLane(seed);
  }

  lemma LengthValues()
    ensures AddLength(0x1656_67B1, 0) == 0x1656_67B1 && AddLength(0x1656_67B1, 1) == 0x1656_67B2
    ensures AddLength(0x1656_67B1, 4) == 0x1656_67B5 && AddLength(0x8C86_B52D, 39) == 0x8C86_B554
  {
  }

  lemma AvalancheValues()
    ensures Avalanche(0x1656_67B1) == 0x02CC_5D05 && Avalanche(0x6506_CBE8) == 0x550D_7456
    ensures Avalanche(0x7527_5207) == 0xA364_3705 && Avalanche(0xB3A7_011B) == 0xE229_3B2F
  {
  }

  lemma FinishGroup(h: bv32, s: seq<Byte>)
    requires |s| >= 4
    ensures Finish(h, s) == Finish(Process4(h, s[..4]), s[4..])
  {
    hide Process1, Process4, Avalanche;
  }

  lemma FinishByte(h: bv32, b: Byte, s: seq<Byte>)
    requires |s| < 3
    ensures Finish(h, [b] + s) == Finish(Process1(h, b), s)
  {
    hide Process1, Process4, Avalanche;
    assert ([b] + s)[1..] == s;
  }

  lemma FinishNone(h: bv32)
    ensures Finish(h, []) == Avalanche(h)
  {
    hide Process1, Process4, Avalanche;
  }

  lemma ShortRest(s: seq<Byte>)
    requires |s| < 16
    ensures Rest(s) == s
  {
  }

  lemma DigestOfNothing()
    ensures Hash(SeedLanes(0), []) == 0x02CC_5D05
  {
    hide Hash, SeedLanes, ShortStart, AddLength, Avalanche, Finish, Rest, Absorb, Converge;
    HashUnfold(SeedLanes(0), []);
    ShortRest([]);
    FinishNone(0x1656_67B1);
    SeedValue();
    LengthValues();
    AvalancheValues();
  }

  lemma ByteValue()
    ensures Process1(0x1656_67B2, 97) == 0x6506_CBE8
  {
  }

  /** Of "a". */
  lemma DigestOfOne()
    ensures Hash(SeedLanes(0), [97]) == 0x550D_7456
  {
    hide Hash, SeedLanes, ShortStart, AddLength, Avalanche, Process1, Finish, Rest, Absorb, Converge;
    HashUnfold(SeedLanes(0), [97]);
    ShortRest([97]);
    assert [97 as Byte] + [] == [97];
    FinishByte(0x1656_67B2, 97, []);
    FinishNone(0x6506_CBE8);
    SeedValue();
    LengthValues();
    ByteValue();
    AvalancheValues();
  }

  lemma ReadValue()
    ensures ReadLE32([97, 98, 99, 100]) == 0x6463_6261
  {
  }

  lemma MixValue()
    ensures Mul(Rotl(Add(0x1656_67B5, Mul(0x6463_6261, PRIME32_3)), 17), PRIME32_4) == 0x7527_5207
  {
  }

  lemma GroupValue()
    ensures Process4(0x1656_67B5, [97, 98, 99, 100]) == 0x7527_5207
  {
    hide ReadLE32, Mul, Rotl, Add;
    ReadValue();
    MixValue();
  }

  /** Of "abcd". */
  lemma DigestOfFour()
    ensures Hash(SeedLanes(0), [97, 98, 99, 100]) == 0xA364_3705
  {
    hide Hash, SeedLanes, ShortStart, AddLength, Avalanche, Process4, Finish, Rest, Absorb, Converge;
    var s: seq<Byte> := [97, 98, 99, 100];
    HashUnfold(SeedLanes(0), s);
    ShortRest(s);
    FinishGroup(0x1656_67B5, s);
    FinishNone(0x7527_5207);
    SeedValue();
    LengthValues();
    GroupValue();
    AvalancheValues();
    assert s[..4] == s && s[4..] == [];
  }

  // ---- a string of two stripes, a group of four bytes and three more ----

  /** "Nobody inspects ", "the spammish rep" and "etition". */
  const FIRST: seq<Byte> := [78, 111, 98, 111, 100, 121, 32, 105, 110, 115, 112, 101, 99, 116, 115, 32]
  const SECOND: seq<Byte> := [116, 104, 101, 32, 115, 112, 97, 109, 109, 105, 115, 104, 32, 114, 101, 112]
  const TAIL: seq<Byte> := [101, 116, 105, 116, 105, 111, 110]

  lemma FirstRead()
    ensures ReadLE32([78, 111, 98, 111]) == 0x6F62_6F4E
    ensures ReadLE32([100, 121, 32, 105]) == 0x6920_7964
    ensures ReadLE32([110, 115, 112, 101]) == 0x6570_736E
    ensures ReadLE32([99, 116, 115, 32]) == 0x2073_7463
  {
  }

  lemma FirstRound()
    ensures Round(0x2423_4428, 0x6F62_6F4E) == 0x046A_700A
    ensures Round(0x85EB_CA77, 0x6920_7964) == 0xBFAD_F8E3
    ensures Round(0x0000_0000, 0x6570_736E) == 0x5B32_B4AA
    ensures Round(0x61C8_864F, 0x2073_7463) == 0x137E_5555
  {
  }

  lemma FirstStripe()
    ensures Stripe(Lanes(0x2423_4428, 0x85EB_CA77, 0x0000_0000, 0x61C8_864F), FIRST) ==
      Lanes(0x046A_700A, 0xBFAD_F8E3, 0x5B32_B4AA, 0x137E_5555)
  {
    hide ReadLE32, Round;
    FirstRead();
    FirstRound();
    var s := FIRST;
    assert s[..4] == [78, 111, 98, 111] && s[4..8] == [100, 121, 32, 105];
    assert s[8..12] == [110, 115, 112, 101] && s[12..] == [99, 116, 115, 32];
  }

  lemma SecondRead()
    ensures ReadLE32([116, 104, 101, 32]) == 0x2065_6874
    ensures ReadLE32([115, 112, 97, 109]) == 0x6D61_7073
    ensures ReadLE32([109, 105, 115, 104]) == 0x6873_696D
    ensures ReadLE32([32, 114, 101, 112]) == 0x7065_7220
  {
  }

  lemma SecondRound()
    ensures Round(0x046A_700A, 0x2065_6874) == 0x719A_836E
    ensures Round(0xBFAD_F8E3, 0x6D61_7073) == 0x514C_1DE8
    ensures Round(0x5B32_B4AA, 0x6873_696D) == 0x97FA_4BA2
    ensures Round(0x137E_5555, 0x7065_7220) == 0x242A_97A2
  {
  }

  lemma SecondStripe()
    ensures Stripe(Lanes(0x046A_700A, 0xBFAD_F8E3, 0x5B32_B4AA, 0x137E_5555), SECOND) ==
      Lanes(0x719A_836E, 0x514C_1DE8, 0x97FA_4BA2, 0x242A_97A2)
  {
    hide ReadLE32, Round;
    SecondRead();
    SecondRound();
    var s := SECOND;
    assert s[..4] == [116, 104, 101, 32] && s[4..8] == [115, 112, 97, 109];
    assert s[8..12] == [109, 105, 115, 104] && s[12..] == [32, 114, 101, 112];
  }

  lemma ConvergeValue()
    ensures Converge(Lanes(0x719A_836E, 0x514C_1DE8, 0x97FA_4BA2, 0x242A_97A2)) == 0x8C86_B52D
  {
  }

  lemma RestRead()
    ensures ReadLE32([101, 116, 105, 116]) == 0x7469_7465
  {
  }

  lemma RestMix()
    ensures Mul(Rotl(Add(0x8C86_B554, Mul(0x7469_7465, PRIME32_3)), 17), PRIME32_4) == 0x09B5_1544
  {
  }

  lemma RestGroup()
    ensures Process4(0x8C86_B554, [101, 116, 105, 116]) == 0x09B5_1544
  {
    hide ReadLE32, Mul, Rotl, Add;
    RestRead();
    RestMix();
  }

  lemma RestBytes()
    ensures Process1(0x09B5_1544, 105) == 0xCDEF_D3C9
    ensures Process1(0xCDEF_D3C9, 111) == 0x3852_087B
    ensures Process1(0x3852_087B, 110) == 0xB3A7_011B
  {
  }

  lemma RestFinish()
    ensures Finish(0x8C86_B554, TAIL) == 0xE229_3B2F
  {
    hide Finish, Process1, Process4, Avalanche;
    RestGroup();
    RestBytes();
    AvalancheValues();
    var s := TAIL;
    FinishGroup(0x8C86_B554, s);
    assert s[..4] == [101, 116, 105, 116] && s[4..] == [105, 111, 110];
    assert [105 as Byte] + [111, 110] == [105, 111, 110] && [111 as Byte] + [110] == [111, 110] && [110 as Byte] + [] == [110];
    FinishByte(0x09B5_1544, 105, [111, 110]);
    FinishByte(0xCDEF_D3C9, 111, [110]);
    FinishByte(0x3852_087B, 110, []);
    FinishNone(0xB3A7_011B);
  }

  lemma FirstOfStripes(l: Lanes, a: seq<Byte>, s: seq<Byte>)
    requires |a| == 16
    ensures Absorb(l, a + s) == Absorb(Stripe(l, a), s) && |Rest(a + s)| == |s| % 16
  {
    hide Stripe, Absorb;
    AbsorbUnfold(l, a + s);
    assert (a + s)[..16] == a && (a + s)[16..] == s;
  }

  lemma TwoStripes(l: Lanes, a: seq<Byte>, b: seq<Byte>, rest: seq<Byte>)
    requires |a| == |b| == 16 && |rest| < 16
    ensures Absorb(l, a + b + rest) == Stripe(Stripe(l, a), b) && Rest(a + b + rest) == rest
  {
    hide Stripe, Absorb;
    var s := a + b + rest;
    assert s == a + (b + rest) && s[|s| - |rest|..] == rest;
    FirstOfStripes(l, a, b + rest);
    FirstOfStripes(Stripe(l, a), b, rest);
    AbsorbUnfold(Stripe(Stripe(l, a), b), rest);
  }

  /** Of "Nobody inspects the spammish repetition". */
  lemma DigestOfSentence()
    ensures Hash(SeedLanes(0), FIRST + SECOND + TAIL) == 0xE229_3B2F
  {
    hide Hash, SeedLanes, Stripe, AddLength, Finish, Converge, Absorb, Rest;
    SeedValue();
    HashUnfold(SeedLanes(0), FIRST + SECOND + TAIL);
    TwoStripes(SeedLanes(0), FIRST, SECOND, TAIL);
    FirstStripe();
    SecondStripe();
    ConvergeValue();
    LengthValues();
    RestFinish();
  }
}
