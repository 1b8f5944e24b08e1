/** The block of the key `l` and the magic string. */
module TraceOfL {
  import opened Sha1Spec
  import opened Traces

  const BEFORE: Hash := [0x67452301, 0xefcdab89, 0x98badcfe, 0x10325476, 0xc3d2e1f0]
  const AFTER: Hash := [0x273854bb, 0xf8a77cd5, 0xab8f0048, 0x4a9c33cf, 0x3e4a940a]

  const ROW0: seq<Word> := [
    0x6c323538, 0x45414641, 0x352d4539, 0x31342d34, 0x3744412d, 0x39354341, 0x2d433541, 0x42304443,
    0x38354231, 0x31800000, 0x00000000, 0x00000000, 0x00000000, 0x00000000, 0x00000000, 0x00000128]

  const ROW16: seq<Word> := [
    0xc2546460, 0x8bead6ea, 0x04d20a78, 0x94aa142b, 0x23db450d, 0xffae1af4, 0x03b8c6b7, 0xa0d600cc,
    0x0b9e794a, 0x73a420bb, 0x48081569, 0x3e68dac3, 0xa0fecb6c, 0x6f4c1d6b, 0xff08f029, 0x178438c5]

  const ROW32: seq<Word> := [
    0x44a81473, 0x27d824a7, 0xf10ac5b2, 0x238980de, 0x4e8ad8e3, 0x827d85c3, 0xa94f9e15, 0x14f980a3,
    0x0a87fb27, 0x86b68195, 0x1a0b3628, 0xf05578a2, 0x2f94c467, 0xc17d2c8b, 0xc57405db, 0x1662b14c]

  const ROW48: seq<Word> := [
    0xfcb00cda, 0x8f26406e, 0x67d3346b, 0x5a22e2cb, 0x8eef85fe, 0x60543b00, 0x793d0444, 0x15846b08,
    0x18d1f5ab, 0x01f17a3b, 0x8f915a58, 0xe7b68692, 0xcbfc7cf2, 0x71b5f93e, 0x4e9f17af, 0x8e79cdb0]

  const ROW64: seq<Word> := [
    0xe40e6849, 0x34d59e63, 0xd1a84cfb, 0x739c6e20, 0x11f6c656, 0xab9bcb9b, 0xb9df10c0, 0x17f435ab,
    0xb1aa1843, 0xd69ae414, 0x0462bff5, 0xa86a139e, 0x841e923e, 0xa06a81c0, 0x7648f971, 0x528de88c]

  const V0 := Working(0x67452301, 0xefcdab89, 0x98badcfe, 0x10325476, 0xc3d2e1f0)
  const V16 := Working(0xc4f5b019, 0xb343d15f, 0xddd97653, 0xf6681292, 0x0ef5fe09)
  const V32 := Working(0x49562a5a, 0xb868b51a, 0xc3be0e49, 0x9ae76012, 0x29f2163d)
  const V48 := Working(0x9b800219, 0xe8660f96, 0x74e20205, 0x85394219, 0x98502a4c)
  const V64 := Working(0xf1dd1956, 0x284cb465, 0x0c7ee6f7, 0x7751c8cf, 0x6055aca5)
  const V80 := Working(0xbff331ba, 0x08d9d14c, 0x12d4234a, 0x3a69df59, 0x7a77b21a)

  lemma Words16()
    ensures RotL(Xor(0x00000000, 0x38354231, 0x352d4539, 0x6c323538), 1) == 0xc2546460
    ensures RotL(Xor(0x00000000, 0x31800000, 0x31342d34, 0x45414641), 1) == 0x8bead6ea
    ensures RotL(Xor(0x00000128, 0x00000000, 0x3744412d, 0x352d4539), 1) == 0x04d20a78
    ensures RotL(Xor(0xc2546460, 0x00000000, 0x39354341, 0x31342d34), 1) == 0x94aa142b
    ensures RotL(Xor(0x8bead6ea, 0x00000000, 0x2d433541, 0x3744412d), 1) == 0x23db450d
    ensures RotL(Xor(0x04d20a78, 0x00000000, 0x42304443, 0x39354341), 1) == 0xffae1af4
    ensures RotL(Xor(0x94aa142b, 0x00000000, 0x38354231, 0x2d433541), 1) == 0x03b8c6b7
    ensures RotL(Xor(0x23db450d, 0x00000128, 0x31800000, 0x42304443), 1) == 0xa0d600cc
    ensures RotL(Xor(0xffae1af4, 0xc2546460, 0x00000000, 0x38354231), 1) == 0x0b9e794a
    ensures RotL(Xor(0x03b8c6b7, 0x8bead6ea, 0x00000000, 0x31800000), 1) == 0x73a420bb
    ensures RotL(Xor(0xa0d600cc, 0x04d20a78, 0x00000000, 0x00000000), 1) == 0x48081569
    ensures RotL(Xor(0x0b9e794a, 0x94aa142b, 0x00000000, 0x00000000), 1) == 0x3e68dac3
    ensures RotL(Xor(0x73a420bb, 0x23db450d, 0x00000000, 0x00000000), 1) == 0xa0fecb6c
    ensures RotL(Xor(0x48081569, 0xffae1af4, 0x00000128, 0x00000000), 1) == 0x6f4c1d6b
    ensures RotL(Xor(0x3e68dac3, 0x03b8c6b7, 0xc2546460, 0x00000000), 1) == 0xff08f029
    ensures RotL(Xor(0xa0fecb6c, 0xa0d600cc, 0x8bead6ea, 0x00000128), 1) == 0x178438c5
  {
  }

  lemma Row16From0()
    ensures forall i :: 0 <= i < 8 ==> FollowsAt(ROW0, ROW16, i)
  {
    hide Xor, RotL;
    Words16();
    assert FollowsAt(ROW0, ROW16, 0) && FollowsAt(ROW0, ROW16, 1);
    assert FollowsAt(ROW0, ROW16, 2) && FollowsAt(ROW0, ROW16, 3);
    assert FollowsAt(ROW0, ROW16, 4) && FollowsAt(ROW0, ROW16, 5);
    assert FollowsAt(ROW0, ROW16, 6) && FollowsAt(ROW0, ROW16, 7);
  }

  lemma Row16From8()
    ensures forall i :: 8 <= i < 16 ==> FollowsAt(ROW0, ROW16, i)
  {
    hide Xor, RotL;
    Words16();
    assert FollowsAt(ROW0, ROW16, 8) && FollowsAt(ROW0, ROW16, 9);
    assert FollowsAt(ROW0, ROW16, 10) && FollowsAt(ROW0, ROW16, 11);
    assert FollowsAt(ROW0, ROW16, 12) && FollowsAt(ROW0, ROW16, 13);
    assert FollowsAt(ROW0, ROW16, 14) && FollowsAt(ROW0, ROW16, 15);
  }

  lemma Words32()
    ensures RotL(Xor(0x6f4c1d6b, 0x0b9e794a, 0x04d20a78, 0xc2546460), 1) == 0x44a81473
    ensures RotL(Xor(0xff08f029, 0x73a420bb, 0x94aa142b, 0x8bead6ea), 1) == 0x27d824a7
    ensures RotL(Xor(0x178438c5, 0x48081569, 0x23db450d, 0x04d20a78), 1) == 0xf10ac5b2
    ensures RotL(Xor(0x44a81473, 0x3e68dac3, 0xffae1af4, 0x94aa142b), 1) == 0x238980de
    ensures RotL(Xor(0x27d824a7, 0xa0fecb6c, 0x03b8c6b7, 0x23db450d), 1) == 0x4e8ad8e3
    ensures RotL(Xor(0xf10ac5b2, 0x6f4c1d6b, 0xa0d600cc, 0xffae1af4), 1) == 0x827d85c3
    ensures RotL(Xor(0x238980de, 0xff08f029, 0x0b9e794a, 0x03b8c6b7), 1) == 0xa94f9e15
    ensures RotL(Xor(0x4e8ad8e3, 0x178438c5, 0x73a420bb, 0xa0d600cc), 1) == 0x14f980a3
    ensures RotL(Xor(0x827d85c3, 0x44a81473, 0x48081569, 0x0b9e794a), 1) == 0x0a87fb27
    ensures RotL(Xor(0xa94f9e15, 0x27d824a7, 0x3e68dac3, 0x73a420bb), 1) == 0x86b68195
    ensures RotL(Xor(0x14f980a3, 0xf10ac5b2, 0xa0fecb6c, 0x48081569), 1) == 0x1a0b3628
    ensures RotL(Xor(0x0a87fb27, 0x238980de, 0x6f4c1d6b, 0x3e68dac3), 1) == 0xf05578a2
    ensures RotL(Xor(0x86b68195, 0x4e8ad8e3, 0xff08f029, 0xa0fecb6c), 1) == 0x2f94c467
    ensures RotL(Xor(0x1a0b3628, 0x827d85c3, 0x178438c5, 0x6f4c1d6b), 1) == 0xc17d2c8b
    ensures RotL(Xor(0xf05578a2, 0xa94f9e15, 0x44a81473, 0xff08f029), 1) == 0xc57405db
    ensures RotL(Xor(0x2f94c467, 0x14f980a3, 0x27d824a7, 0x178438c5), 1) == 0x1662b14c
  {
  }

  lemma Row32From0()
    ensures forall i :: 0 <= i < 8 ==> FollowsAt(ROW16, ROW32, i)
  {
    hide Xor, RotL;
    Words32();
    assert FollowsAt(ROW16, ROW32, 0) && FollowsAt(ROW16, ROW32, 1);
    assert FollowsAt(ROW16, ROW32, 2) && FollowsAt(ROW16, ROW32, 3);
    assert FollowsAt(ROW16, ROW32, 4) && FollowsAt(ROW16, ROW32, 5);
    assert FollowsAt(ROW16, ROW32, 6) && FollowsAt(ROW16, ROW32, 7);
  }

  lemma Row32From8()
    ensures forall i :: 8 <= i < 16 ==> FollowsAt(ROW16, ROW32, i)
  {
    hide Xor, RotL;
    Words32();
    assert FollowsAt(ROW16, ROW32, 8) && FollowsAt(ROW16, ROW32, 9);
    assert FollowsAt(ROW16, ROW32, 10) && FollowsAt(ROW16, ROW32, 11);
    assert FollowsAt(ROW16, ROW32, 12) && FollowsAt(ROW16, ROW32, 13);
    assert FollowsAt(ROW16, ROW32, 14) && FollowsAt(ROW16, ROW32, 15);
  }

  lemma Words48()
    ensures RotL(Xor(0xc17d2c8b, 0x0a87fb27, 0xf10ac5b2, 0x44a81473), 1) == 0xfcb00cda
    ensures RotL(Xor(0xc57405db, 0x86b68195, 0x238980de, 0x27d824a7), 1) == 0x8f26406e
    ensures RotL(Xor(0x1662b14c, 0x1a0b3628, 0x4e8ad8e3, 0xf10ac5b2), 1) == 0x67d3346b
    ensures RotL(Xor(0xfcb00cda, 0xf05578a2, 0x827d85c3, 0x238980de), 1) == 0x5a22e2cb
    ensures RotL(Xor(0x8f26406e, 0x2f94c467, 0xa94f9e15, 0x4e8ad8e3), 1) == 0x8eef85fe
    ensures RotL(Xor(0x67d3346b, 0xc17d2c8b, 0x14f980a3, 0x827d85c3), 1) == 0x60543b00
    ensures RotL(Xor(0x5a22e2cb, 0xc57405db, 0x0a87fb27, 0xa94f9e15), 1) == 0x793d0444
    ensures RotL(Xor(0x8eef85fe, 0x1662b14c, 0x86b68195, 0x14f980a3), 1) == 0x15846b08
    ensures RotL(Xor(0x60543b00, 0xfcb00cda, 0x1a0b3628, 0x0a87fb27), 1) == 0x18d1f5ab
    ensures RotL(Xor(0x793d0444, 0x8f26406e, 0xf05578a2, 0x86b68195), 1) == 0x01f17a3b
    ensures RotL(Xor(0x15846b08, 0x67d3346b, 0x2f94c467, 0x1a0b3628), 1) == 0x8f915a58
    ensures RotL(Xor(0x18d1f5ab, 0x5a22e2cb, 0xc17d2c8b, 0xf05578a2), 1) == 0xe7b68692
    ensures RotL(Xor(0x01f17a3b, 0x8eef85fe, 0xc57405db, 0x2f94c467), 1) == 0xcbfc7cf2
    ensures RotL(Xor(0x8f915a58, 0x60543b00, 0x1662b14c, 0xc17d2c8b), 1) == 0x71b5f93e
    ensures RotL(Xor(0xe7b68692, 0x793d0444, 0xfcb00cda, 0xc57405db), 1) == 0x4e9f17af
    ensures RotL(Xor(0xcbfc7cf2, 0x15846b08, 0x8f26406e, 0x1662b14c), 1) == 0x8e79cdb0
  {
  }

  lemma Row48From0()
    ensures forall i :: 0 <= i < 8 ==> FollowsAt(ROW32, ROW48, i)
  {
    hide Xor, RotL;
    Words48();
    assert FollowsAt(ROW32, ROW48, 0) && FollowsAt(ROW32, ROW48, 1);
    assert FollowsAt(ROW32, ROW48, 2) && FollowsAt(ROW32, ROW48, 3);
    assert FollowsAt(ROW32, ROW48, 4) && FollowsAt(ROW32, ROW48, 5);
    assert FollowsAt(ROW32, ROW48, 6) && FollowsAt(ROW32, ROW48, 7);
  }

  lemma Row48From8()
    ensures forall i :: 8 <= i < 16 ==> FollowsAt(ROW32, ROW48, i)
  {
    hide Xor, RotL;
    Words48();
    assert FollowsAt(ROW32, ROW48, 8) && FollowsAt(ROW32, ROW48, 9);
    assert FollowsAt(ROW32, ROW48, 10) && FollowsAt(ROW32, ROW48, 11);
    assert FollowsAt(ROW32, ROW48, 12) && FollowsAt(ROW32, ROW48, 13);
    assert FollowsAt(ROW32, ROW48, 14) && FollowsAt(ROW32, ROW48, 15);
  }

  lemma Words64()
    ensures RotL(Xor(0x71b5f93e, 0x18d1f5ab, 0x67d3346b, 0xfcb00cda), 1) == 0xe40e6849
    ensures RotL(Xor(0x4e9f17af, 0x01f17a3b, 0x5a22e2cb, 0x8f26406e), 1) == 0x34d59e63
    ensures RotL(Xor(0x8e79cdb0, 0x8f915a58, 0x8eef85fe, 0x67d3346b), 1) == 0xd1a84cfb
    ensures RotL(Xor(0xe40e6849, 0xe7b68692, 0x60543b00, 0x5a22e2cb), 1) == 0x739c6e20
    ensures RotL(Xor(0x34d59e63, 0xcbfc7cf2, 0x793d0444, 0x8eef85fe), 1) == 0x11f6c656
    ensures RotL(Xor(0xd1a84cfb, 0x71b5f93e, 0x15846b08, 0x60543b00), 1) == 0xab9bcb9b
    ensures RotL(Xor(0x739c6e20, 0x4e9f17af, 0x18d1f5ab, 0x793d0444), 1) == 0xb9df10c0
    ensures RotL(Xor(0x11f6c656, 0x8e79cdb0, 0x01f17a3b, 0x15846b08), 1) == 0x17f435ab
    ensures RotL(Xor(0xab9bcb9b, 0xe40e6849, 0x8f915a58, 0x18d1f5ab), 1) == 0xb1aa1843
    ensures RotL(Xor(0xb9df10c0, 0x34d59e63, 0xe7b68692, 0x01f17a3b), 1) == 0xd69ae414
    ensures RotL(Xor(0x17f435ab, 0xd1a84cfb, 0xcbfc7cf2, 0x8f915a58), 1) == 0x0462bff5
    ensures RotL(Xor(0xb1aa1843, 0x739c6e20, 0x71b5f93e, 0xe7b68692), 1) == 0xa86a139e
    ensures RotL(Xor(0xd69ae414, 0x11f6c656, 0x4e9f17af, 0xcbfc7cf2), 1) == 0x841e923e
    ensures RotL(Xor(0x0462bff5, 0xab9bcb9b, 0x8e79cdb0, 0x71b5f93e), 1) == 0xa06a81c0
    ensures RotL(Xor(0xa86a139e, 0xb9df10c0, 0xe40e6849, 0x4e9f17af), 1) == 0x7648f971
    ensures RotL(Xor(0x841e923e, 0x17f435ab, 0x34d59e63, 0x8e79cdb0), 1) == 0x528de88c
  {
  }

  lemma Row64From0()
    ensures forall i :: 0 <= i < 8 ==> FollowsAt(ROW48, ROW64, i)
  {
    hide Xor, RotL;
    Words64();
    assert FollowsAt(ROW48, ROW64, 0) && FollowsAt(ROW48, ROW64, 1);
    assert FollowsAt(ROW48, ROW64, 2) && FollowsAt(ROW48, ROW64, 3);
    assert FollowsAt(ROW48, ROW64, 4) && FollowsAt(ROW48, ROW64, 5);
    assert FollowsAt(ROW48, ROW64, 6) && FollowsAt(ROW48, ROW64, 7);
  }

  lemma Row64From8()
    ensures forall i :: 8 <= i < 16 ==> FollowsAt(ROW48, ROW64, i)
  {
    hide Xor, RotL;
    Words64();
    assert FollowsAt(ROW48, ROW64, 8) && FollowsAt(ROW48, ROW64, 9);
    assert FollowsAt(ROW48, ROW64, 10) && FollowsAt(ROW48, ROW64, 11);
    assert FollowsAt(ROW48, ROW64, 12) && FollowsAt(ROW48, ROW64, 13);
    assert FollowsAt(ROW48, ROW64, 14) && FollowsAt(ROW48, ROW64, 15);
  }

  lemma Rounds0()
    ensures Four(Working(0x67452301, 0xefcdab89, 0x98badcfe, 0x10325476, 0xc3d2e1f0), 0,
                 0x6c323538, 0x45414641, 0x352d4539, 0x31342d34)
         == Working(0xd04738d0, 0xbbb61c75, 0xca32f42b, 0xc2f9b37a, 0x59d148c0)
  {
  }

  lemma Rounds4()
    ensures Four(Working(0xd04738d0, 0xbbb61c75, 0xca32f42b, 0xc2f9b37a, 0x59d148c0), 4,
                 0x3744412d, 0x39354341, 0x2d433541, 0x42304443)
         == Working(0x89362665, 0xd6482ae9, 0xa0207381, 0xefbeb532, 0x3411ce34)
  {
  }

  lemma Rounds8()
    ensures Four(Working(0x89362665, 0xd6482ae9, 0xa0207381, 0xefbeb532, 0x3411ce34), 8,
                 0x38354231, 0x31800000, 0x00000000, 0x00000000)
         == Working(0x3bd7f824, 0x0c234d82, 0x615d52af, 0xa5d14390, 0x624d8999)
  {
  }

  lemma Rounds12()
    ensures Four(Working(0x3bd7f824, 0x0c234d82, 0x615d52af, 0xa5d14390, 0x624d8999), 12,
                 0x00000000, 0x00000000, 0x00000000, 0x00000128)
         == Working(0xc4f5b019, 0xb343d15f, 0xddd97653, 0xf6681292, 0x0ef5fe09)
  {
  }

  lemma Rounds16()
    ensures Four(Working(0xc4f5b019, 0xb343d15f, 0xddd97653, 0xf6681292, 0x0ef5fe09), 16,
                 0xc2546460, 0x8bead6ea, 0x04d20a78, 0x94aa142b)
         == Working(0xdcff3458, 0xb4fe4231, 0xee0d26c6, 0x67fb0c83, 0x713d6c06)
  {
  }

  lemma Rounds20()
    ensures Four(Working(0xdcff3458, 0xb4fe4231, 0xee0d26c6, 0x67fb0c83, 0x713d6c06), 20,
                 0x23db450d, 0xffae1af4, 0x03b8c6b7, 0xa0d600cc)
         == Working(0x952029c6, 0x6bd55bc1, 0x94a0a769, 0xf8386410, 0x373fcd16)
  {
  }

  lemma Rounds24()
    ensures Four(Working(0x952029c6, 0x6bd55bc1, 0x94a0a769, 0xf8386410, 0x373fcd16), 24,
                 0x0b9e794a, 0x73a420bb, 0x48081569, 0x3e68dac3)
         == Working(0xa7c858f4, 0xdfd04e57, 0xb5e32e8d, 0xd742c0e2, 0xa5480a71)
  {
  }

  lemma Rounds28()
    ensures Four(Working(0xa7c858f4, 0xdfd04e57, 0xb5e32e8d, 0xd742c0e2, 0xa5480a71), 28,
                 0xa0fecb6c, 0x6f4c1d6b, 0xff08f029, 0x178438c5)
         == Working(0x49562a5a, 0xb868b51a, 0xc3be0e49, 0x9ae76012, 0x29f2163d)
  {
  }

  lemma Rounds32()
    ensures Four(Working(0x49562a5a, 0xb868b51a, 0xc3be0e49, 0x9ae76012, 0x29f2163d), 32,
                 0x44a81473, 0x27d824a7, 0xf10ac5b2, 0x238980de)
         == Working(0x11b9f13f, 0x772a0037, 0x20fcc54b, 0xfa5acf36, 0x92558a96)
  {
  }

  lemma Rounds36()
    ensures Four(Working(0x11b9f13f, 0x772a0037, 0x20fcc54b, 0xfa5acf36, 0x92558a96), 36,
                 0x4e8ad8e3, 0x827d85c3, 0xa94f9e15, 0x14f980a3)
         == Working(0x948c1468, 0x808a8732, 0x5a348776, 0x8d212051, 0xc46e7c4f)
  {
  }

  lemma Rounds40()
    ensures Four(Working(0x948c1468, 0x808a8732, 0x5a348776, 0x8d212051, 0xc46e7c4f), 40,
                 0x0a87fb27, 0x86b68195, 0x1a0b3628, 0xf05578a2)
         == Working(0x6140a932, 0x609e5bdd, 0x0a703fbf, 0x9ded5235, 0x2523051a)
  {
  }

  lemma Rounds44()
    ensures Four(Working(0x6140a932, 0x609e5bdd, 0x0a703fbf, 0x9ded5235, 0x2523051a), 44,
                 0x2f94c467, 0xc17d2c8b, 0xc57405db, 0x1662b14c)
         == Working(0x9b800219, 0xe8660f96, 0x74e20205, 0x85394219, 0x98502a4c)
  {
  }

  lemma Rounds48()
    ensures Four(Working(0x9b800219, 0xe8660f96, 0x74e20205, 0x85394219, 0x98502a4c), 48,
                 0xfcb00cda, 0x8f26406e, 0x67d3346b, 0x5a22e2cb)
         == Working(0xe4e3ae15, 0x9e964bff, 0xdb709aad, 0x9e1f8e52, 0x66e00086)
  {
  }

  lemma Rounds52()
    ensures Four(Working(0xe4e3ae15, 0x9e964bff, 0xdb709aad, 0x9e1f8e52, 0x66e00086), 52,
                 0x8eef85fe, 0x60543b00, 0x793d0444, 0x15846b08)
         == Working(0xe6af1636, 0x6f677bb8, 0x9918d118, 0xefdde446, 0x7938eb85)
  {
  }

  lemma Rounds56()
    ensures Four(Working(0xe6af1636, 0x6f677bb8, 0x9918d118, 0xefdde446, 0x7938eb85), 56,
                 0x18d1f5ab, 0x01f17a3b, 0x8f915a58, 0xe7b68692)
         == Working(0x8156b295, 0xa1a7f5d5, 0xfa5bec6d, 0x3999d580, 0xb9abc58d)
  {
  }

  lemma Rounds60()
    ensures Four(Working(0x8156b295, 0xa1a7f5d5, 0xfa5bec6d, 0x3999d580, 0xb9abc58d), 60,
                 0xcbfc7cf2, 0x71b5f93e, 0x4e9f17af, 0x8e79cdb0)
         == Working(0xf1dd1956, 0x284cb465, 0x0c7ee6f7, 0x7751c8cf, 0x6055aca5)
  {
  }

  lemma Rounds64()
    ensures Four(Working(0xf1dd1956, 0x284cb465, 0x0c7ee6f7, 0x7751c8cf, 0x6055aca5), 64,
                 0xe40e6849, 0x34d59e63, 0xd1a84cfb, 0x739c6e20)
         == Working(0x8568570a, 0x12035cf7, 0xf9fb9eec, 0xe77366ff, 0xbc774655)
  {
  }

  lemma Rounds68()
    ensures Four(Working(0x8568570a, 0x12035cf7, 0xf9fb9eec, 0xe77366ff, 0xbc774655), 68,
                 0x11f6c656, 0xab9bcb9b, 0xb9df10c0, 0x17f435ab)
         == Working(0xbc8d06d8, 0x03f04678, 0x589bea7d, 0x5499d52d, 0xa15a15c2)
  {
  }

  lemma Rounds72()
    ensures Four(Working(0xbc8d06d8, 0x03f04678, 0x589bea7d, 0x5499d52d, 0xa15a15c2), 72,
                 0xb1aa1843, 0xd69ae414, 0x0462bff5, 0xa86a139e)
         == Working(0xe9dec869, 0xf1e5f5b1, 0x6e72beea, 0xafbe9106, 0x2f2341b6)
  {
  }

  lemma Rounds76()
    ensures Four(Working(0xe9dec869, 0xf1e5f5b1, 0x6e72beea, 0xafbe9106, 0x2f2341b6), 76,
                 0x841e923e, 0xa06a81c0, 0x7648f971, 0x528de88c)
         == Working(0xbff331ba, 0x08d9d14c, 0x12d4234a, 0x3a69df59, 0x7a77b21a)
  {
  }

  lemma Sixteen0()
    ensures Sixteen(V0, 0, ROW0) == V16
  {
    hide Four;
    Rounds0();
    Rounds4();
    Rounds8();
    Rounds12();
  }

  lemma Sixteen16()
    ensures Sixteen(V16, 16, ROW16) == V32
  {
    hide Four;
    Rounds16();
    Rounds20();
    Rounds24();
    Rounds28();
  }

  lemma Sixteen32()
    ensures Sixteen(V32, 32, ROW32) == V48
  {
    hide Four;
    Rounds32();
    Rounds36();
    Rounds40();
    Rounds44();
  }

  lemma Sixteen48()
    ensures Sixteen(V48, 48, ROW48) == V64
  {
    hide Four;
    Rounds48();
    Rounds52();
    Rounds56();
    Rounds60();
  }

  lemma Sixteen64()
    ensures Sixteen(V64, 64, ROW64) == V80
  {
    hide Four;
    Rounds64();
    Rounds68();
    Rounds72();
    Rounds76();
  }

  lemma Sums()
    ensures Add(BEFORE[0], V80.a) == AFTER[0]
    ensures Add(BEFORE[1], V80.b) == AFTER[1]
    ensures Add(BEFORE[2], V80.c) == AFTER[2]
    ensures Add(BEFORE[3], V80.d) == AFTER[3]
    ensures Add(BEFORE[4], V80.e) == AFTER[4]
  {
  }

  lemma CompressedBlock()
    ensures Compress(BEFORE, ROW0) == AFTER
  {
    Row16From0();
    Row16From8();
    Row32From0();
    Row32From8();
    Row48From0();
    Row48From8();
    Row64From0();
    Row64From8();
    Sixteen0();
    Sixteen16();
    Sixteen32();
    Sixteen48();
    Sixteen64();
    Sums();
    hide FollowsAt, Sixteen, Compress, Add;
    CompressedRows(BEFORE, ROW0, ROW16, ROW32, ROW48, ROW64, V0, V16, V32, V48, V64, V80);
  }
}
