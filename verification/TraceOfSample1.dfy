/** The second block of the same message, which holds only padding. */
module TraceOfSample1 {
  import opened Sha1Spec
  import opened Traces

  const BEFORE: Hash := [0x5bcf7727, 0x7327416a, 0xbe7bfbf9, 0x5a781878, 0x5e46a4e2]
  const AFTER: Hash := [0xb37a4f2c, 0xc0624f16, 0x90f64606, 0xcf385945, 0xb2bec4ea]

  const ROW0: seq<Word> := [
    0x00000000, 0x00000000, 0x00000000, 0x00000000, 0x00000000, 0x00000000, 0x00000000, 0x00000000,
    0x00000000, 0x00000000, 0x00000000, 0x00000000, 0x00000000, 0x00000000, 0x00000000, 0x000001e0]

  const ROW16: seq<Word> := [
    0x00000000, 0x00000000, 0x000003c0, 0x00000000, 0x00000000, 0x00000780, 0x00000000, 0x000003c0,
    0x00000f00, 0x00000000, 0x00000000, 0x00001e00, 0x00000000, 0x00000cc0, 0x00003c00, 0x00000440]

  const ROW32: seq<Word> := [
    0x00000000, 0x00007800, 0x00000f00, 0x00003300, 0x0000f000, 0x00000f00, 0x00000000, 0x0001ef00,
    0x00000000, 0x0000cc00, 0x0003c000, 0x00004380, 0x00000000, 0x00078f00, 0x0000ff00, 0x00032680]

  const ROW48: seq<Word> := [
    0x000f0000, 0x0000f000, 0x00003300, 0x001eff00, 0x00000000, 0x000cb800, 0x003c0000, 0x00040b00,
    0x0000f000, 0x0078ff00, 0x000ff000, 0x00338700, 0x00f00000, 0x000fc300, 0x0000f000, 0x01efbb00]

  const ROW64: seq<Word> := [
    0x00000000, 0x00cc0000, 0x03c0f000, 0x00438000, 0x00000000, 0x078f0000, 0x00ff0000, 0x03269e00,
    0x0f000000, 0x00f0f000, 0x00333c00, 0x1eff8800, 0x00000000, 0x0cb88800, 0x3c00f000, 0x040a4a00]

  const V0 := Working(0x5bcf7727, 0x7327416a, 0xbe7bfbf9, 0x5a781878, 0x5e46a4e2)
  const V16 := Working(0x986df268, 0x990b7be7, 0xab50fce7, 0x195db4b7, 0x4941806b)
  const V32 := Working(0x3cf6eb58, 0xf4ddd7b7, 0xc90fb815, 0xbd5f2d4f, 0xe4c9f7db)
  const V48 := Working(0xa3ef857e, 0xc8cda3da, 0xcef6480e, 0xff1ef4d7, 0xc7a4d2b3)
  const V64 := Working(0xa5937450, 0xd5ef1ed7, 0xc444cbe3, 0xddd22788, 0x558467c6)
  const V80 := Working(0x57aad805, 0x4d3b0dac, 0xd27a4a0d, 0x74c040cd, 0x54782008)

  lemma Words16()
    ensures RotL(Xor(0x00000000, 0x00000000, 0x00000000, 0x00000000), 1) == 0x00000000
    ensures RotL(Xor(0x00000000, 0x00000000, 0x00000000, 0x00000000), 1) == 0x00000000
    ensures RotL(Xor(0x000001e0, 0x00000000, 0x00000000, 0x00000000), 1) == 0x000003c0
    ensures RotL(Xor(0x00000000, 0x00000000, 0x00000000, 0x00000000), 1) == 0x00000000
    ensures RotL(Xor(0x00000000, 0x00000000, 0x00000000, 0x00000000), 1) == 0x00000000
    ensures RotL(Xor(0x000003c0, 0x00000000, 0x00000000, 0x00000000), 1) == 0x00000780
    ensures RotL(Xor(0x00000000, 0x00000000, 0x00000000, 0x00000000), 1) == 0x00000000
    ensures RotL(Xor(0x00000000, 0x000001e0, 0x00000000, 0x00000000), 1) == 0x000003c0
    ensures RotL(Xor(0x00000780, 0x00000000, 0x00000000, 0x00000000), 1) == 0x00000f00
    ensures RotL(Xor(0x00000000, 0x00000000, 0x00000000, 0x00000000), 1) == 0x00000000
    ensures RotL(Xor(0x000003c0, 0x000003c0, 0x00000000, 0x00000000), 1) == 0x00000000
    ensures RotL(Xor(0x00000f00, 0x00000000, 0x00000000, 0x00000000), 1) == 0x00001e00
    ensures RotL(Xor(0x00000000, 0x00000000, 0x00000000, 0x00000000), 1) == 0x00000000
    ensures RotL(Xor(0x00000000, 0x00000780, 0x000001e0, 0x00000000), 1) == 0x00000cc0
    ensures RotL(Xor(0x00001e00, 0x00000000, 0x00000000, 0x00000000), 1) == 0x00003c00
    ensures RotL(Xor(0x00000000, 0x000003c0, 0x00000000, 0x000001e0), 1) == 0x00000440
  {
  }

  lemma Row16From0()
    ensures forall i :: 0 <= i < 8 ==> FollowsAt(ROW0, ROW16, i)
  {
    hide Xor, RotL;
    Words16();
    assert FollowsAt(ROW0, ROW16, 0) && FollowsAt(ROW0, ROW16, 1);
    assert FollowsAt(ROW0, ROW16, 2) && FollowsAt(ROW0, ROW16, 3);
    assert FollowsAt(ROW0, ROW16, 4) && FollowsAt(ROW0, ROW16, 5);
    assert FollowsAt(ROW0, ROW16, 6) && FollowsAt(ROW0, ROW16, 7);
  }

  lemma Row16From8()
    ensures forall i :: 8 <= i < 16 ==> FollowsAt(ROW0, ROW16, i)
  {
    hide Xor, RotL;
    Words16();
    assert FollowsAt(ROW0, ROW16, 8) && FollowsAt(ROW0, ROW16, 9);
    assert FollowsAt(ROW0, ROW16, 10) && FollowsAt(ROW0, ROW16, 11);
    assert FollowsAt(ROW0, ROW16, 12) && FollowsAt(ROW0, ROW16, 13);
    assert FollowsAt(ROW0, ROW16, 14) && FollowsAt(ROW0, ROW16, 15);
  }

  lemma Words32()
    ensures RotL(Xor(0x00000cc0, 0x00000f00, 0x000003c0, 0x00000000), 1) == 0x00000000
    ensures RotL(Xor(0x00003c00, 0x00000000, 0x00000000, 0x00000000), 1) == 0x00007800
    ensures RotL(Xor(0x00000440, 0x00000000, 0x00000000, 0x000003c0), 1) == 0x00000f00
    ensures RotL(Xor(0x00000000, 0x00001e00, 0x00000780, 0x00000000), 1) == 0x00003300
    ensures RotL(Xor(0x00007800, 0x00000000, 0x00000000, 0x00000000), 1) == 0x0000f000
    ensures RotL(Xor(0x00000f00, 0x00000cc0, 0x000003c0, 0x00000780), 1) == 0x00000f00
    ensures RotL(Xor(0x00003300, 0x00003c00, 0x00000f00, 0x00000000), 1) == 0x00000000
    ensures RotL(Xor(0x0000f000, 0x00000440, 0x00000000, 0x000003c0), 1) == 0x0001ef00
    ensures RotL(Xor(0x00000f00, 0x00000000, 0x00000000, 0x00000f00), 1) == 0x00000000
    ensures RotL(Xor(0x00000000, 0x00007800, 0x00001e00, 0x00000000), 1) == 0x0000cc00
    ensures RotL(Xor(0x0001ef00, 0x00000f00, 0x00000000, 0x00000000), 1) == 0x0003c000
    ensures RotL(Xor(0x00000000, 0x00003300, 0x00000cc0, 0x00001e00), 1) == 0x00004380
    ensures RotL(Xor(0x0000cc00, 0x0000f000, 0x00003c00, 0x00000000), 1) == 0x00000000
    ensures RotL(Xor(0x0003c000, 0x00000f00, 0x00000440, 0x00000cc0), 1) == 0x00078f00
    ensures RotL(Xor(0x00004380, 0x00000000, 0x00000000, 0x00003c00), 1) == 0x0000ff00
    ensures RotL(Xor(0x00000000, 0x0001ef00, 0x00007800, 0x00000440), 1) == 0x00032680
  {
  }

  lemma Row32From0()
    ensures forall i :: 0 <= i < 8 ==> FollowsAt(ROW16, ROW32, i)
  {
    hide Xor, RotL;
    Words32();
    assert FollowsAt(ROW16, ROW32, 0) && FollowsAt(ROW16, ROW32, 1);
    assert FollowsAt(ROW16, ROW32, 2) && FollowsAt(ROW16, ROW32, 3);
    assert FollowsAt(ROW16, ROW32, 4) && FollowsAt(ROW16, ROW32, 5);
    assert FollowsAt(ROW16, ROW32, 6) && FollowsAt(ROW16, ROW32, 7);
  }

  lemma Row32From8()
    ensures forall i :: 8 <= i < 16 ==> FollowsAt(ROW16, ROW32, i)
  {
    hide Xor, RotL;
    Words32();
    assert FollowsAt(ROW16, ROW32, 8) && FollowsAt(ROW16, ROW32, 9);
    assert FollowsAt(ROW16, ROW32, 10) && FollowsAt(ROW16, ROW32, 11);
    assert FollowsAt(ROW16, ROW32, 12) && FollowsAt(ROW16, ROW32, 13);
    assert FollowsAt(ROW16, ROW32, 14) && FollowsAt(ROW16, ROW32, 15);
  }

  lemma Words48()
    ensures RotL(Xor(0x00078f00, 0x00000000, 0x00000f00, 0x00000000), 1) == 0x000f0000
    ensures RotL(Xor(0x0000ff00, 0x0000cc00, 0x00003300, 0x00007800), 1) == 0x0000f000
    ensures RotL(Xor(0x00032680, 0x0003c000, 0x0000f000, 0x00000f00), 1) == 0x00003300
    ensures RotL(Xor(0x000f0000, 0x00004380, 0x00000f00, 0x00003300), 1) == 0x001eff00
    ensures RotL(Xor(0x0000f000, 0x00000000, 0x00000000, 0x0000f000), 1) == 0x00000000
    ensures RotL(Xor(0x00003300, 0x00078f00, 0x0001ef00, 0x00000f00), 1) == 0x000cb800
    ensures RotL(Xor(0x001eff00, 0x0000ff00, 0x00000000, 0x00000000), 1) == 0x003c0000
    ensures RotL(Xor(0x00000000, 0x00032680, 0x0000cc00, 0x0001ef00), 1) == 0x00040b00
    ensures RotL(Xor(0x000cb800, 0x000f0000, 0x0003c000, 0x00000000), 1) == 0x0000f000
    ensures RotL(Xor(0x003c0000, 0x0000f000, 0x00004380, 0x0000cc00), 1) == 0x0078ff00
    ensures RotL(Xor(0x00040b00, 0x00003300, 0x00000000, 0x0003c000), 1) == 0x000ff000
    ensures RotL(Xor(0x0000f000, 0x001eff00, 0x00078f00, 0x00004380), 1) == 0x00338700
    ensures RotL(Xor(0x0078ff00, 0x00000000, 0x0000ff00, 0x00000000), 1) == 0x00f00000
    ensures RotL(Xor(0x000ff000, 0x000cb800, 0x00032680, 0x00078f00), 1) == 0x000fc300
    ensures RotL(Xor(0x00338700, 0x003c0000, 0x000f0000, 0x0000ff00), 1) == 0x0000f000
    ensures RotL(Xor(0x00f00000, 0x00040b00, 0x0000f000, 0x00032680), 1) == 0x01efbb00
  {
  }

  lemma Row48From0()
    ensures forall i :: 0 <= i < 8 ==> FollowsAt(ROW32, ROW48, i)
  {
    hide Xor, RotL;
    Words48();
    assert FollowsAt(ROW32, ROW48, 0) && FollowsAt(ROW32, ROW48, 1);
    assert FollowsAt(ROW32, ROW48, 2) && FollowsAt(ROW32, ROW48, 3);
    assert FollowsAt(ROW32, ROW48, 4) && FollowsAt(ROW32, ROW48, 5);
    assert FollowsAt(ROW32, ROW48, 6) && FollowsAt(ROW32, ROW48, 7);
  }

  lemma Row48From8()
    ensures forall i :: 8 <= i < 16 ==> FollowsAt(ROW32, ROW48, i)
  {
    hide Xor, RotL;
    Words48();
    assert FollowsAt(ROW32, ROW48, 8) && FollowsAt(ROW32, ROW48, 9);
    assert FollowsAt(ROW32, ROW48, 10) && FollowsAt(ROW32, ROW48, 11);
    assert FollowsAt(ROW32, ROW48, 12) && FollowsAt(ROW32, ROW48, 13);
    assert FollowsAt(ROW32, ROW48, 14) && FollowsAt(ROW32, ROW48, 15);
  }

  lemma Words64()
    ensures RotL(Xor(0x000fc300, 0x0000f000, 0x00003300, 0x000f0000), 1) == 0x00000000
    ensures RotL(Xor(0x0000f000, 0x0078ff00, 0x001eff00, 0x0000f000), 1) == 0x00cc0000
    ensures RotL(Xor(0x01efbb00, 0x000ff000, 0x00000000, 0x00003300), 1) == 0x03c0f000
    ensures RotL(Xor(0x00000000, 0x00338700, 0x000cb800, 0x001eff00), 1) == 0x00438000
    ensures RotL(Xor(0x00cc0000, 0x00f00000, 0x003c0000, 0x00000000), 1) == 0x00000000
    ensures RotL(Xor(0x03c0f000, 0x000fc300, 0x00040b00, 0x000cb800), 1) == 0x078f0000
    ensures RotL(Xor(0x00438000, 0x0000f000, 0x0000f000, 0x003c0000), 1) == 0x00ff0000
    ensures RotL(Xor(0x00000000, 0x01efbb00, 0x0078ff00, 0x00040b00), 1) == 0x03269e00
    ensures RotL(Xor(0x078f0000, 0x00000000, 0x000ff000, 0x0000f000), 1) == 0x0f000000
    ensures RotL(Xor(0x00ff0000, 0x00cc0000, 0x00338700, 0x0078ff00), 1) == 0x00f0f000
    ensures RotL(Xor(0x03269e00, 0x03c0f000, 0x00f00000, 0x000ff000), 1) == 0x00333c00
    ensures RotL(Xor(0x0f000000, 0x00438000, 0x000fc300, 0x00338700), 1) == 0x1eff8800
    ensures RotL(Xor(0x00f0f000, 0x00000000, 0x0000f000, 0x00f00000), 1) == 0x00000000
    ensures RotL(Xor(0x00333c00, 0x078f0000, 0x01efbb00, 0x000fc300), 1) == 0x0cb88800
    ensures RotL(Xor(0x1eff8800, 0x00ff0000, 0x00000000, 0x0000f000), 1) == 0x3c00f000
    ensures RotL(Xor(0x00000000, 0x03269e00, 0x00cc0000, 0x01efbb00), 1) == 0x040a4a00
  {
  }

  lemma Row64From0()
    ensures forall i :: 0 <= i < 8 ==> FollowsAt(ROW48, ROW64, i)
  {
    hide Xor, RotL;
    Words64();
    assert FollowsAt(ROW48, ROW64, 0) && FollowsAt(ROW48, ROW64, 1);
    assert FollowsAt(ROW48, ROW64, 2) && FollowsAt(ROW48, ROW64, 3);
    assert FollowsAt(ROW48, ROW64, 4) && FollowsAt(ROW48, ROW64, 5);
    assert FollowsAt(ROW48, ROW64, 6) && FollowsAt(ROW48, ROW64, 7);
  }

  lemma Row64From8()
    ensures forall i :: 8 <= i < 16 ==> FollowsAt(ROW48, ROW64, i)
  {
    hide Xor, RotL;
    Words64();
    assert FollowsAt(ROW48, ROW64, 8) && FollowsAt(ROW48, ROW64, 9);
    assert FollowsAt(ROW48, ROW64, 10) && FollowsAt(ROW48, ROW64, 11);
    assert FollowsAt(ROW48, ROW64, 12) && FollowsAt(ROW48, ROW64, 13);
    assert FollowsAt(ROW48, ROW64, 14) && FollowsAt(ROW48, ROW64, 15);
  }

  lemma Rounds0()
    ensures Four(Working(0x5bcf7727, 0x7327416a, 0xbe7bfbf9, 0x5a781878, 0x5e46a4e2), 0,
                 0x00000000, 0x00000000, 0x00000000, 0x00000000)
         == Working(0x15855523, 0xf9fb295d, 0x061801ae, 0x9b4cd737, 0xd6f3ddc9)
  {
  }

  lemma Rounds4()
    ensures Four(Working(0x15855523, 0xf9fb295d, 0x061801ae, 0x9b4cd737, 0xd6f3ddc9), 4,
                 0x00000000, 0x00000000, 0x00000000, 0x00000000)
         == Working(0x25c018be, 0xb3bbcafe, 0xe4e97bee, 0xb90f74bc, 0xc5615548)
  {
  }

  lemma Rounds8()
    ensures Four(Working(0x25c018be, 0xb3bbcafe, 0xe4e97bee, 0xb90f74bc, 0xc5615548), 8,
                 0x00000000, 0x00000000, 0x00000000, 0x00000000)
         == Working(0x250601ad, 0x4ce92417, 0xc2c20530, 0xe0251964, 0x8970062f)
  {
  }

  lemma Rounds12()
    ensures Four(Working(0x250601ad, 0x4ce92417, 0xc2c20530, 0xe0251964, 0x8970062f), 12,
                 0x00000000, 0x00000000, 0x00000000, 0x000001e0)
         == Working(0x986df268, 0x990b7be7, 0xab50fce7, 0x195db4b7, 0x4941806b)
  {
  }

  lemma Rounds16()
    ensures Four(Working(0x986df268, 0x990b7be7, 0xab50fce7, 0x195db4b7, 0x4941806b), 16,
                 0x00000000, 0x00000000, 0x000003c0, 0x00000000)
         == Working(0x2a008b51, 0x2f193a09, 0x9c8663c1, 0x8eb5d103, 0x261b7c9a)
  {
  }

  lemma Rounds20()
    ensures Four(Working(0x2a008b51, 0x2f193a09, 0x9c8663c1, 0x8eb5d103, 0x261b7c9a), 20,
                 0x00000000, 0x00000780, 0x00000000, 0x000003c0)
         == Working(0x53c73650, 0x3e5179e7, 0x103ef3e6, 0xc48c56ca, 0x4a8022d4)
  {
  }

  lemma Rounds24()
    ensures Four(Working(0x53c73650, 0x3e5179e7, 0x103ef3e6, 0xc48c56ca, 0x4a8022d4), 24,
                 0x00000f00, 0x00000000, 0x00000000, 0x00001e00)
         == Working(0x9327df6f, 0xd2e726da, 0x591b19df, 0x87493112, 0x14f1cd94)
  {
  }

  lemma Rounds28()
    ensures Four(Working(0x9327df6f, 0xd2e726da, 0x591b19df, 0x87493112, 0x14f1cd94), 28,
                 0x00000000, 0x00000cc0, 0x00003c00, 0x00000440)
         == Working(0x3cf6eb58, 0xf4ddd7b7, 0xc90fb815, 0xbd5f2d4f, 0xe4c9f7db)
  {
  }

  lemma Rounds32()
    ensures Four(Working(0x3cf6eb58, 0xf4ddd7b7, 0xc90fb815, 0xbd5f2d4f, 0xe4c9f7db), 32,
                 0x00000000, 0x00007800, 0x00000f00, 0x00003300)
         == Working(0x76922a14, 0x942ac4d3, 0xa5b67967, 0x1cc3a45c, 0x0f3dbad6)
  {
  }

  lemma Rounds36()
    ensures Four(Working(0x76922a14, 0x942ac4d3, 0xa5b67967, 0x1cc3a45c, 0x0f3dbad6), 36,
                 0x0000f000, 0x00000f00, 0x00000000, 0x0001ef00)
         == Working(0x6f698f1a, 0xc6ff0cd3, 0xde5ab7bc, 0x5f6f3cbb, 0x1da48a85)
  {
  }

  lemma Rounds40()
    ensures Four(Working(0x6f698f1a, 0xc6ff0cd3, 0xde5ab7bc, 0x5f6f3cbb, 0x1da48a85), 40,
                 0x00000000, 0x0000cc00, 0x0003c000, 0x00004380)
         == Working(0x1e934acf, 0xedfcd85b, 0xbf0d0e80, 0x5e1c59da, 0x9bda63c6)
  {
  }

  lemma Rounds44()
    ensures Four(Working(0x1e934acf, 0xedfcd85b, 0xbf0d0e80, 0x5e1c59da, 0x9bda63c6), 44,
                 0x00000000, 0x00078f00, 0x0000ff00, 0x00032680)
         == Working(0xa3ef857e, 0xc8cda3da, 0xcef6480e, 0xff1ef4d7, 0xc7a4d2b3)
  {
  }

  lemma Rounds48()
    ensures Four(Working(0xa3ef857e, 0xc8cda3da, 0xcef6480e, 0xff1ef4d7, 0xc7a4d2b3), 48,
                 0x000f0000, 0x0000f000, 0x00003300, 0x001eff00)
         == Working(0x5fe2a3db, 0xa3abe4f5, 0x6945bc99, 0x68e7c810, 0xa8fbe15f)
  {
  }

  lemma Rounds52()
    ensures Four(Working(0x5fe2a3db, 0xa3abe4f5, 0x6945bc99, 0x68e7c810, 0xa8fbe15f), 52,
                 0x00000000, 0x000cb800, 0x003c0000, 0x00040b00)
         == Working(0xa1b68141, 0x660dd0b1, 0x0b1cef5e, 0xe795018d, 0xd7f8a8f6)
  {
  }

  lemma Rounds56()
    ensures Four(Working(0xa1b68141, 0x660dd0b1, 0x0b1cef5e, 0xe795018d, 0xd7f8a8f6), 56,
                 0x0000f000, 0x0078ff00, 0x000ff000, 0x00338700)
         == Working(0x56119f19, 0x085eb2fe, 0x484a25c5, 0xc140cfe8, 0x686da050)
  {
  }

  lemma Rounds60()
    ensures Four(Working(0x56119f19, 0x085eb2fe, 0x484a25c5, 0xc140cfe8, 0x686da050), 60,
                 0x00f00000, 0x000fc300, 0x0000f000, 0x01efbb00)
         == Working(0xa5937450, 0xd5ef1ed7, 0xc444cbe3, 0xddd22788, 0x558467c6)
  {
  }

  lemma Rounds64()
    ensures Four(Working(0xa5937450, 0xd5ef1ed7, 0xc444cbe3, 0xddd22788, 0x558467c6), 64,
                 0x00000000, 0x00cc0000, 0x03c0f000, 0x00438000)
         == Working(0x097a511c, 0xc97f1968, 0xc5e88bbd, 0x27b3e99b, 0x2964dd14)
  {
  }

  lemma Rounds68()
    ensures Four(Working(0x097a511c, 0xc97f1968, 0xc5e88bbd, 0x27b3e99b, 0x2964dd14), 68,
                 0x00000000, 0x078f0000, 0x00ff0000, 0x03269e00)
         == Working(0xc90888ca, 0xf6d1afee, 0x6fce9fe5, 0x538d8f6e, 0x025e9447)
  {
  }

  lemma Rounds72()
    ensures Four(Working(0xc90888ca, 0xf6d1afee, 0x6fce9fe5, 0x538d8f6e, 0x025e9447), 72,
                 0x0f000000, 0x00f0f000, 0x00333c00, 0x1eff8800)
         == Working(0x51e08021, 0xe22b36d1, 0x09be6664, 0xf1d94bb6, 0xb2422232)
  {
  }

  lemma Rounds76()
    ensures Four(Working(0x51e08021, 0xe22b36d1, 0x09be6664, 0xf1d94bb6, 0xb2422232), 76,
                 0x00000000, 0x0cb88800, 0x3c00f000, 0x040a4a00)
         == Working(0x57aad805, 0x4d3b0dac, 0xd27a4a0d, 0x74c040cd, 0x54782008)
  {
  }

  lemma Sixteen0()
    ensures Sixteen(V0, 0, ROW0) == V16
  {
    hide Four;
    Rounds0();
    Rounds4();
    Rounds8();
    Rounds12();
  }

  lemma Sixteen16()
    ensures Sixteen(V16, 16, ROW16) == V32
  {
    hide Four;
    Rounds16();
    Rounds20();
    Rounds24();
    Rounds28();
  }

  lemma Sixteen32()
    ensures Sixteen(V32, 32, ROW32) == V48
  {
    hide Four;
    Rounds32();
    Rounds36();
    Rounds40();
    Rounds44();
  }

  lemma Sixteen48()
    ensures Sixteen(V48, 48, ROW48) == V64
  {
    hide Four;
    Rounds48();
    Rounds52();
    Rounds56();
    Rounds60();
  }

  lemma Sixteen64()
    ensures Sixteen(V64, 64, ROW64) == V80
  {
    hide Four;
    Rounds64();
    Rounds68();
    Rounds72();
    Rounds76();
  }

  lemma Sums()
    ensures Add(BEFORE[0], V80.a) == AFTER[0]
    ensures Add(BEFORE[1], V80.b) == AFTER[1]
    ensures Add(BEFORE[2], V80.c) == AFTER[2]
    ensures Add(BEFORE[3], V80.d) == AFTER[3]
    ensures Add(BEFORE[4], V80.e) == AFTER[4]
  {
  }

  lemma CompressedBlock()
    ensures Compress(BEFORE, ROW0) == AFTER
  {
    Row16From0();
    Row16From8();
    Row32From0();
    Row32From8();
    Row48From0();
    Row48From8();
    Row64From0();
    Row64From8();
    Sixteen0();
    Sixteen16();
    Sixteen32();
    Sixteen48();
    Sixteen64();
    Sums();
    hide FollowsAt, Sixteen, Compress, Add;
    CompressedRows(BEFORE, ROW0, ROW16, ROW32, ROW48, ROW64, V0, V16, V32, V48, V64, V80);
  }
}
