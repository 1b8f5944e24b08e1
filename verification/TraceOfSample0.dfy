/** The first block of the sample key of section 1.3 of RFC 6455 and the magic string. */
module TraceOfSample0 {
  import opened Sha1Spec
  import opened Traces

  const BEFORE: Hash := [0x67452301, 0xefcdab89, 0x98badcfe, 0x10325476, 0xc3d2e1f0]
  const AFTER: Hash := [0x5bcf7727, 0x7327416a, 0xbe7bfbf9, 0x5a781878, 0x5e46a4e2]

  const ROW0: seq<Word> := [
    0x6447686c, 0x49484e68, 0x62584273, 0x5a534275, 0x6232356a, 0x5a513d3d, 0x32353845, 0x41464135,
    0x2d453931, 0x342d3437, 0x44412d39, 0x3543412d, 0x43354142, 0x30444338, 0x35423131, 0x80000000]

  const ROW16: seq<Word> := [
    0x363ca02c, 0x24e81236, 0x8856b441, 0x06fb3c92, 0x6fb4bcb6, 0x460b16e3, 0x599219ae, 0x35bf9369,
    0x3267458e, 0xf828fd04, 0x753a96a7, 0x6336f612, 0xc3d66383, 0x06eb86f9, 0x73b4fd42, 0xa503c5b8]

  const ROW32: seq<Word> := [
    0x15cdae35, 0x531e5dc5, 0x6fb6b7d0, 0x6c16e4ac, 0x4ddd36bd, 0x35d36946, 0xe8ae8b9c, 0x4a933ad0,
    0xce8628b4, 0x415dba9e, 0x2792f049, 0x8e9b79e7, 0x79c425c5, 0x6353b49d, 0x00994218, 0x8a950ed1]

  const ROW48: seq<Word> := [
    0xaf5d0b99, 0xfd9883de, 0x1ed8ffeb, 0xf007ff28, 0x425e3674, 0x059631c0, 0xad6c3c31, 0x860b71d7,
    0x87bfc548, 0x3e64f92d, 0x8d0ab761, 0x34e1ee35, 0x0acf5108, 0xc2b479da, 0x6c93370a, 0xf7935ba1]

  const ROW64: seq<Word> := [
    0xe91c91c1, 0xbed165a2, 0x4c3e4abe, 0x50d96238, 0xb6587dde, 0x1a2ee6e6, 0x2d335896, 0xf3495d0b,
    0xf30e0a1d, 0x32ce5459, 0x7165e3b8, 0xab05ff94, 0xc5949f0b, 0xbcd84e4a, 0x07720392, 0xff3ff806]

  const V0 := Working(0x67452301, 0xefcdab89, 0x98badcfe, 0x10325476, 0xc3d2e1f0)
  const V16 := Working(0xa004c468, 0xe922cc9d, 0xab86825b, 0xd86f6caf, 0x8d33ae61)
  const V32 := Working(0xa6680a1f, 0xb7dabc8b, 0x4206d8f9, 0xc6aec70d, 0x95c7df60)
  const V48 := Working(0xabe1748a, 0xdee4b7a8, 0x5cbfccd3, 0x97d7cd14, 0xdb71a8f5)
  const V64 := Working(0x685e2ff6, 0x840054d3, 0xe43c0363, 0x3350802e, 0x921cb616)
  const V80 := Working(0xf48a5426, 0x835995e1, 0x25c11efb, 0x4a45c402, 0x9a73c2f2)

  lemma Words16()
    ensures RotL(Xor(0x30444338, 0x2d453931, 0x62584273, 0x6447686c), 1) == 0x363ca02c
    ensures RotL(Xor(0x35423131, 0x342d3437, 0x5a534275, 0x49484e68), 1) == 0x24e81236
    ensures RotL(Xor(0x80000000, 0x44412d39, 0x6232356a, 0x62584273), 1) == 0x8856b441
    ensures RotL(Xor(0x363ca02c, 0x3543412d, 0x5a513d3d, 0x5a534275), 1) == 0x06fb3c92
    ensures RotL(Xor(0x24e81236, 0x43354142, 0x32353845, 0x6232356a), 1) == 0x6fb4bcb6
    ensures RotL(Xor(0x8856b441, 0x30444338, 0x41464135, 0x5a513d3d), 1) == 0x460b16e3
    ensures RotL(Xor(0x06fb3c92, 0x35423131, 0x2d453931, 0x32353845), 1) == 0x599219ae
    ensures RotL(Xor(0x6fb4bcb6, 0x80000000, 0x342d3437, 0x41464135), 1) == 0x35bf9369
    ensures RotL(Xor(0x460b16e3, 0x363ca02c, 0x44412d39, 0x2d453931), 1) == 0x3267458e
    ensures RotL(Xor(0x599219ae, 0x24e81236, 0x3543412d, 0x342d3437), 1) == 0xf828fd04
    ensures RotL(Xor(0x35bf9369, 0x8856b441, 0x43354142, 0x44412d39), 1) == 0x753a96a7
    ensures RotL(Xor(0x3267458e, 0x06fb3c92, 0x30444338, 0x3543412d), 1) == 0x6336f612
    ensures RotL(Xor(0xf828fd04, 0x6fb4bcb6, 0x35423131, 0x43354142), 1) == 0xc3d66383
    ensures RotL(Xor(0x753a96a7, 0x460b16e3, 0x80000000, 0x30444338), 1) == 0x06eb86f9
    ensures RotL(Xor(0x6336f612, 0x599219ae, 0x363ca02c, 0x35423131), 1) == 0x73b4fd42
    ensures RotL(Xor(0xc3d66383, 0x35bf9369, 0x24e81236, 0x80000000), 1) == 0xa503c5b8
  {
  }

  lemma Row16From0()
    ensures forall i :: 0 <= i < 8 ==> FollowsAt(ROW0, ROW16, i)
  {
    hide Xor, RotL;
    Words16();
    assert FollowsAt(ROW0, ROW16, 0) && FollowsAt(ROW0, ROW16, 1);
    assert FollowsAt(ROW0, ROW16, 2) && FollowsAt(ROW0, ROW16, 3);
    assert FollowsAt(ROW0, ROW16, 4) && FollowsAt(ROW0, ROW16, 5);
    assert FollowsAt(ROW0, ROW16, 6) && FollowsAt(ROW0, ROW16, 7);
  }

  lemma Row16From8()
    ensures forall i :: 8 <= i < 16 ==> FollowsAt(ROW0, ROW16, i)
  {
    hide Xor, RotL;
    Words16();
    assert FollowsAt(ROW0, ROW16, 8) && FollowsAt(ROW0, ROW16, 9);
    assert FollowsAt(ROW0, ROW16, 10) && FollowsAt(ROW0, ROW16, 11);
    assert FollowsAt(ROW0, ROW16, 12) && FollowsAt(ROW0, ROW16, 13);
    assert FollowsAt(ROW0, ROW16, 14) && FollowsAt(ROW0, ROW16, 15);
  }

  lemma Words32()
    ensures RotL(Xor(0x06eb86f9, 0x3267458e, 0x8856b441, 0x363ca02c), 1) == 0x15cdae35
    ensures RotL(Xor(0x73b4fd42, 0xf828fd04, 0x06fb3c92, 0x24e81236), 1) == 0x531e5dc5
    ensures RotL(Xor(0xa503c5b8, 0x753a96a7, 0x6fb4bcb6, 0x8856b441), 1) == 0x6fb6b7d0
    ensures RotL(Xor(0x15cdae35, 0x6336f612, 0x460b16e3, 0x06fb3c92), 1) == 0x6c16e4ac
    ensures RotL(Xor(0x531e5dc5, 0xc3d66383, 0x599219ae, 0x6fb4bcb6), 1) == 0x4ddd36bd
    ensures RotL(Xor(0x6fb6b7d0, 0x06eb86f9, 0x35bf9369, 0x460b16e3), 1) == 0x35d36946
    ensures RotL(Xor(0x6c16e4ac, 0x73b4fd42, 0x3267458e, 0x599219ae), 1) == 0xe8ae8b9c
    ensures RotL(Xor(0x4ddd36bd, 0xa503c5b8, 0xf828fd04, 0x35bf9369), 1) == 0x4a933ad0
    ensures RotL(Xor(0x35d36946, 0x15cdae35, 0x753a96a7, 0x3267458e), 1) == 0xce8628b4
    ensures RotL(Xor(0xe8ae8b9c, 0x531e5dc5, 0x6336f612, 0xf828fd04), 1) == 0x415dba9e
    ensures RotL(Xor(0x4a933ad0, 0x6fb6b7d0, 0xc3d66383, 0x753a96a7), 1) == 0x2792f049
    ensures RotL(Xor(0xce8628b4, 0x6c16e4ac, 0x06eb86f9, 0x6336f612), 1) == 0x8e9b79e7
    ensures RotL(Xor(0x415dba9e, 0x4ddd36bd, 0x73b4fd42, 0xc3d66383), 1) == 0x79c425c5
    ensures RotL(Xor(0x2792f049, 0x35d36946, 0xa503c5b8, 0x06eb86f9), 1) == 0x6353b49d
    ensures RotL(Xor(0x8e9b79e7, 0xe8ae8b9c, 0x15cdae35, 0x73b4fd42), 1) == 0x00994218
    ensures RotL(Xor(0x79c425c5, 0x4a933ad0, 0x531e5dc5, 0xa503c5b8), 1) == 0x8a950ed1
  {
  }

  lemma Row32From0()
    ensures forall i :: 0 <= i < 8 ==> FollowsAt(ROW16, ROW32, i)
  {
    hide Xor, RotL;
    Words32();
    assert FollowsAt(ROW16, ROW32, 0) && FollowsAt(ROW16, ROW32, 1);
    assert FollowsAt(ROW16, ROW32, 2) && FollowsAt(ROW16, ROW32, 3);
    assert FollowsAt(ROW16, ROW32, 4) && FollowsAt(ROW16, ROW32, 5);
    assert FollowsAt(ROW16, ROW32, 6) && FollowsAt(ROW16, ROW32, 7);
  }

  lemma Row32From8()
    ensures forall i :: 8 <= i < 16 ==> FollowsAt(ROW16, ROW32, i)
  {
    hide Xor, RotL;
    Words32();
    assert FollowsAt(ROW16, ROW32, 8) && FollowsAt(ROW16, ROW32, 9);
    assert FollowsAt(ROW16, ROW32, 10) && FollowsAt(ROW16, ROW32, 11);
    assert FollowsAt(ROW16, ROW32, 12) && FollowsAt(ROW16, ROW32, 13);
    assert FollowsAt(ROW16, ROW32, 14) && FollowsAt(ROW16, ROW32, 15);
  }

  lemma Words48()
    ensures RotL(Xor(0x6353b49d, 0xce8628b4, 0x6fb6b7d0, 0x15cdae35), 1) == 0xaf5d0b99
    ensures RotL(Xor(0x00994218, 0x415dba9e, 0x6c16e4ac, 0x531e5dc5), 1) == 0xfd9883de
    ensures RotL(Xor(0x8a950ed1, 0x2792f049, 0x4ddd36bd, 0x6fb6b7d0), 1) == 0x1ed8ffeb
    ensures RotL(Xor(0xaf5d0b99, 0x8e9b79e7, 0x35d36946, 0x6c16e4ac), 1) == 0xf007ff28
    ensures RotL(Xor(0xfd9883de, 0x79c425c5, 0xe8ae8b9c, 0x4ddd36bd), 1) == 0x425e3674
    ensures RotL(Xor(0x1ed8ffeb, 0x6353b49d, 0x4a933ad0, 0x35d36946), 1) == 0x059631c0
    ensures RotL(Xor(0xf007ff28, 0x00994218, 0xce8628b4, 0xe8ae8b9c), 1) == 0xad6c3c31
    ensures RotL(Xor(0x425e3674, 0x8a950ed1, 0x415dba9e, 0x4a933ad0), 1) == 0x860b71d7
    ensures RotL(Xor(0x059631c0, 0xaf5d0b99, 0x2792f049, 0xce8628b4), 1) == 0x87bfc548
    ensures RotL(Xor(0xad6c3c31, 0xfd9883de, 0x8e9b79e7, 0x415dba9e), 1) == 0x3e64f92d
    ensures RotL(Xor(0x860b71d7, 0x1ed8ffeb, 0x79c425c5, 0x2792f049), 1) == 0x8d0ab761
    ensures RotL(Xor(0x87bfc548, 0xf007ff28, 0x6353b49d, 0x8e9b79e7), 1) == 0x34e1ee35
    ensures RotL(Xor(0x3e64f92d, 0x425e3674, 0x00994218, 0x79c425c5), 1) == 0x0acf5108
    ensures RotL(Xor(0x8d0ab761, 0x059631c0, 0x8a950ed1, 0x6353b49d), 1) == 0xc2b479da
    ensures RotL(Xor(0x34e1ee35, 0xad6c3c31, 0xaf5d0b99, 0x00994218), 1) == 0x6c93370a
    ensures RotL(Xor(0x0acf5108, 0x860b71d7, 0xfd9883de, 0x8a950ed1), 1) == 0xf7935ba1
  {
  }

  lemma Row48From0()
    ensures forall i :: 0 <= i < 8 ==> FollowsAt(ROW32, ROW48, i)
  {
    hide Xor, RotL;
    Words48();
    assert FollowsAt(ROW32, ROW48, 0) && FollowsAt(ROW32, ROW48, 1);
    assert FollowsAt(ROW32, ROW48, 2) && FollowsAt(ROW32, ROW48, 3);
    assert FollowsAt(ROW32, ROW48, 4) && FollowsAt(ROW32, ROW48, 5);
    assert FollowsAt(ROW32, ROW48, 6) && FollowsAt(ROW32, ROW48, 7);
  }

  lemma Row48From8()
    ensures forall i :: 8 <= i < 16 ==> FollowsAt(ROW32, ROW48, i)
  {
    hide Xor, RotL;
    Words48();
    assert FollowsAt(ROW32, ROW48, 8) && FollowsAt(ROW32, ROW48, 9);
    assert FollowsAt(ROW32, ROW48, 10) && FollowsAt(ROW32, ROW48, 11);
    assert FollowsAt(ROW32, ROW48, 12) && FollowsAt(ROW32, ROW48, 13);
    assert FollowsAt(ROW32, ROW48, 14) && FollowsAt(ROW32, ROW48, 15);
  }

  lemma Words64()
    ensures RotL(Xor(0xc2b479da, 0x87bfc548, 0x1ed8ffeb, 0xaf5d0b99), 1) == 0xe91c91c1
    ensures RotL(Xor(0x6c93370a, 0x3e64f92d, 0xf007ff28, 0xfd9883de), 1) == 0xbed165a2
    ensures RotL(Xor(0xf7935ba1, 0x8d0ab761, 0x425e3674, 0x1ed8ffeb), 1) == 0x4c3e4abe
    ensures RotL(Xor(0xe91c91c1, 0x34e1ee35, 0x059631c0, 0xf007ff28), 1) == 0x50d96238
    ensures RotL(Xor(0xbed165a2, 0x0acf5108, 0xad6c3c31, 0x425e3674), 1) == 0xb6587dde
    ensures RotL(Xor(0x4c3e4abe, 0xc2b479da, 0x860b71d7, 0x059631c0), 1) == 0x1a2ee6e6
    ensures RotL(Xor(0x50d96238, 0x6c93370a, 0x87bfc548, 0xad6c3c31), 1) == 0x2d335896
    ensures RotL(Xor(0xb6587dde, 0xf7935ba1, 0x3e64f92d, 0x860b71d7), 1) == 0xf3495d0b
    ensures RotL(Xor(0x1a2ee6e6, 0xe91c91c1, 0x8d0ab761, 0x87bfc548), 1) == 0xf30e0a1d
    ensures RotL(Xor(0x2d335896, 0xbed165a2, 0x34e1ee35, 0x3e64f92d), 1) == 0x32ce5459
    ensures RotL(Xor(0xf3495d0b, 0x4c3e4abe, 0x0acf5108, 0x8d0ab761), 1) == 0x7165e3b8
    ensures RotL(Xor(0xf30e0a1d, 0x50d96238, 0xc2b479da, 0x34e1ee35), 1) == 0xab05ff94
    ensures RotL(Xor(0x32ce5459, 0xb6587dde, 0x6c93370a, 0x0acf5108), 1) == 0xc5949f0b
    ensures RotL(Xor(0x7165e3b8, 0x1a2ee6e6, 0xf7935ba1, 0xc2b479da), 1) == 0xbcd84e4a
    ensures RotL(Xor(0xab05ff94, 0x2d335896, 0xe91c91c1, 0x6c93370a), 1) == 0x07720392
    ensures RotL(Xor(0xc5949f0b, 0xf3495d0b, 0xbed165a2, 0xf7935ba1), 1) == 0xff3ff806
  {
  }

  lemma Row64From0()
    ensures forall i :: 0 <= i < 8 ==> FollowsAt(ROW48, ROW64, i)
  {
    hide Xor, RotL;
    Words64();
    assert FollowsAt(ROW48, ROW64, 0) && FollowsAt(ROW48, ROW64, 1);
    assert FollowsAt(ROW48, ROW64, 2) && FollowsAt(ROW48, ROW64, 3);
    assert FollowsAt(ROW48, ROW64, 4) && FollowsAt(ROW48, ROW64, 5);
    assert FollowsAt(ROW48, ROW64, 6) && FollowsAt(ROW48, ROW64, 7);
  }

  lemma Row64From8()
    ensures forall i :: 8 <= i < 16 ==> FollowsAt(ROW48, ROW64, i)
  {
    hide Xor, RotL;
    Words64();
    assert FollowsAt(ROW48, ROW64, 8) && FollowsAt(ROW48, ROW64, 9);
    assert FollowsAt(ROW48, ROW64, 10) && FollowsAt(ROW48, ROW64, 11);
    assert FollowsAt(ROW48, ROW64, 12) && FollowsAt(ROW48, ROW64, 13);
    assert FollowsAt(ROW48, ROW64, 14) && FollowsAt(ROW48, ROW64, 15);
  }

  lemma Rounds0()
    ensures Four(Working(0x67452301, 0xefcdab89, 0x98badcfe, 0x10325476, 0xc3d2e1f0), 0,
                 0x6447686c, 0x49484e68, 0x62584273, 0x5a534275)
         == Working(0x53e039ac, 0xbe90ee8f, 0x4bde4fd5, 0xc0ff0047, 0x59d148c0)
  {
  }

  lemma Rounds4()
    ensures Four(Working(0x53e039ac, 0xbe90ee8f, 0x4bde4fd5, 0xc0ff0047, 0x59d148c0), 4,
                 0x6232356a, 0x5a513d3d, 0x32353845, 0x41464135)
         == Working(0x2e0ce601, 0x73553e84, 0x5cc82e5a, 0xb7631f04, 0x14f80e6b)
  {
  }

  lemma Rounds8()
    ensures Four(Working(0x2e0ce601, 0x73553e84, 0x5cc82e5a, 0xb7631f04, 0x14f80e6b), 8,
                 0x2d453931, 0x342d3437, 0x44412d39, 0x3543412d)
         == Working(0x34ceb986, 0x5ff4238c, 0x7eab499d, 0x8cafac16, 0x4b833980)
  {
  }

  lemma Rounds12()
    ensures Four(Working(0x34ceb986, 0x5ff4238c, 0x7eab499d, 0x8cafac16, 0x4b833980), 12,
                 0x43354142, 0x30444338, 0x35423131, 0x80000000)
         == Working(0xa004c468, 0xe922cc9d, 0xab86825b, 0xd86f6caf, 0x8d33ae61)
  {
  }

  lemma Rounds16()
    ensures Four(Working(0xa004c468, 0xe922cc9d, 0xab86825b, 0xd86f6caf, 0x8d33ae61), 16,
                 0x363ca02c, 0x24e81236, 0x8856b441, 0x06fb3c92)
         == Working(0x091ab97c, 0x8dc510b6, 0xdfaeca5a, 0x75f6bd5d, 0x2801311a)
  {
  }

  lemma Rounds20()
    ensures Four(Working(0x091ab97c, 0x8dc510b6, 0xdfaeca5a, 0x75f6bd5d, 0x2801311a), 20,
                 0x6fb4bcb6, 0x460b16e3, 0x599219ae, 0x35bf9369)
         == Working(0x250e26ef, 0xbeafd554, 0xb44bc2d5, 0xd4611c28, 0x0246ae5f)
  {
  }

  lemma Rounds24()
    ensures Four(Working(0x250e26ef, 0xbeafd554, 0xb44bc2d5, 0xd4611c28, 0x0246ae5f), 24,
                 0x3267458e, 0xf828fd04, 0x753a96a7, 0x6336f612)
         == Working(0x571f7d82, 0xef012f20, 0x1d22ce68, 0xc8f47246, 0xc94389bb)
  {
  }

  lemma Rounds28()
    ensures Four(Working(0x571f7d82, 0xef012f20, 0x1d22ce68, 0xc8f47246, 0xc94389bb), 28,
                 0xc3d66383, 0x06eb86f9, 0x73b4fd42, 0xa503c5b8)
         == Working(0xa6680a1f, 0xb7dabc8b, 0x4206d8f9, 0xc6aec70d, 0x95c7df60)
  {
  }

  lemma Rounds32()
    ensures Four(Working(0xa6680a1f, 0xb7dabc8b, 0x4206d8f9, 0xc6aec70d, 0x95c7df60), 32,
                 0x15cdae35, 0x531e5dc5, 0x6fb6b7d0, 0x6c16e4ac)
         == Working(0x9de793c8, 0x149bb4d3, 0xbbaae8d6, 0x46b8d82a, 0xe99a0287)
  {
  }

  lemma Rounds36()
    ensures Four(Working(0x9de793c8, 0x149bb4d3, 0xbbaae8d6, 0x46b8d82a, 0xe99a0287), 36,
                 0x4ddd36bd, 0x35d36946, 0xe8ae8b9c, 0x4a933ad0)
         == Working(0x2ba2c83e, 0xd0869081, 0x1a1d8209, 0xd3334889, 0x2779e4f2)
  {
  }

  lemma Rounds40()
    ensures Four(Working(0x2ba2c83e, 0xd0869081, 0x1a1d8209, 0xd3334889, 0x2779e4f2), 40,
                 0xce8628b4, 0x415dba9e, 0x2792f049, 0x8e9b79e7)
         == Working(0x6dc6a3d7, 0x868829b7, 0x13d62691, 0x32e314b4, 0x8ae8b20f)
  {
  }

  lemma Rounds44()
    ensures Four(Working(0x6dc6a3d7, 0x868829b7, 0x13d62691, 0x32e314b4, 0x8ae8b20f), 44,
                 0x79c425c5, 0x6353b49d, 0x00994218, 0x8a950ed1)
         == Working(0xabe1748a, 0xdee4b7a8, 0x5cbfccd3, 0x97d7cd14, 0xdb71a8f5)
  {
  }

  lemma Rounds48()
    ensures Four(Working(0xabe1748a, 0xdee4b7a8, 0x5cbfccd3, 0x97d7cd14, 0xdb71a8f5), 48,
                 0xaf5d0b99, 0xfd9883de, 0x1ed8ffeb, 0xf007ff28)
         == Working(0x10e7f671, 0x0e5d77c4, 0x8197e121, 0xdd443413, 0xaaf85d22)
  {
  }

  lemma Rounds52()
    ensures Four(Working(0x10e7f671, 0x0e5d77c4, 0x8197e121, 0xdd443413, 0xaaf85d22), 52,
                 0x425e3674, 0x059631c0, 0xad6c3c31, 0x860b71d7)
         == Working(0x7e1242f2, 0x50c9104c, 0x131822b1, 0x49b1a4e5, 0x4439fd9c)
  {
  }

  lemma Rounds56()
    ensures Four(Working(0x7e1242f2, 0x50c9104c, 0x131822b1, 0x49b1a4e5, 0x4439fd9c), 56,
                 0x87bfc548, 0x3e64f92d, 0x8d0ab761, 0x34e1ee35)
         == Working(0x4872d85a, 0xd284f163, 0x83091f0b, 0x1bbdbfbd, 0x9f8490bc)
  {
  }

  lemma Rounds60()
    ensures Four(Working(0x4872d85a, 0xd284f163, 0x83091f0b, 0x1bbdbfbd, 0x9f8490bc), 60,
                 0x0acf5108, 0xc2b479da, 0x6c93370a, 0xf7935ba1)
         == Working(0x685e2ff6, 0x840054d3, 0xe43c0363, 0x3350802e, 0x921cb616)
  {
  }

  lemma Rounds64()
    ensures Four(Working(0x685e2ff6, 0x840054d3, 0xe43c0363, 0x3350802e, 0x921cb616), 64,
                 0xe91c91c1, 0xbed165a2, 0x4c3e4abe, 0x50d96238)
         == Working(0xcf8658ec, 0x53131a40, 0xf0f0b916, 0x2933b806, 0x9a178bfd)
  {
  }

  lemma Rounds68()
    ensures Four(Working(0xcf8658ec, 0x53131a40, 0xf0f0b916, 0x2933b806, 0x9a178bfd), 68,
                 0xb6587dde, 0x1a2ee6e6, 0x2d335896, 0xf3495d0b)
         == Working(0x7e65e044, 0x80d59773, 0x81ce06df, 0xa59b8126, 0x33e1963b)
  {
  }

  lemma Rounds72()
    ensures Four(Working(0x7e65e044, 0x80d59773, 0x81ce06df, 0xa59b8126, 0x33e1963b), 72,
                 0xf30e0a1d, 0x32ce5459, 0x7165e3b8, 0xab05ff94)
         == Working(0x69cf0bca, 0xe20983f9, 0x050ea0e2, 0xd8a39ed1, 0x1f997811)
  {
  }

  lemma Rounds76()
    ensures Four(Working(0x69cf0bca, 0xe20983f9, 0x050ea0e2, 0xd8a39ed1, 0x1f997811), 76,
                 0xc5949f0b, 0xbcd84e4a, 0x07720392, 0xff3ff806)
         == Working(0xf48a5426, 0x835995e1, 0x25c11efb, 0x4a45c402, 0x9a73c2f2)
  {
  }

  lemma Sixteen0()
    ensures Sixteen(V0, 0, ROW0) == V16
  {
    hide Four;
    Rounds0();
    Rounds4();
    Rounds8();
    Rounds12();
  }

  lemma Sixteen16()
    ensures Sixteen(V16, 16, ROW16) == V32
  {
    hide Four;
    Rounds16();
    Rounds20();
    Rounds24();
    Rounds28();
  }

  lemma Sixteen32()
    ensures Sixteen(V32, 32, ROW32) == V48
  {
    hide Four;
    Rounds32();
    Rounds36();
    Rounds40();
    Rounds44();
  }

  lemma Sixteen48()
    ensures Sixteen(V48, 48, ROW48) == V64
  {
    hide Four;
    Rounds48();
    Rounds52();
    Rounds56();
    Rounds60();
  }

  lemma Sixteen64()
    ensures Sixteen(V64, 64, ROW64) == V80
  {
    hide Four;
    Rounds64();
    Rounds68();
    Rounds72();
    Rounds76();
  }

  lemma Sums()
    ensures Add(BEFORE[0], V80.a) == AFTER[0]
    ensures Add(BEFORE[1], V80.b) == AFTER[1]
    ensures Add(BEFORE[2], V80.c) == AFTER[2]
    ensures Add(BEFORE[3], V80.d) == AFTER[3]
    ensures Add(BEFORE[4], V80.e) == AFTER[4]
  {
  }

  lemma CompressedBlock()
    ensures Compress(BEFORE, ROW0) == AFTER
  {
    Row16From0();
    Row16From8();
    Row32From0();
    Row32From8();
    Row48From0();
    Row48From8();
    Row64From0();
    Row64From8();
    Sixteen0();
    Sixteen16();
    Sixteen32();
    Sixteen48();
    Sixteen64();
    Sums();
    hide FollowsAt, Sixteen, Compress, Add;
    CompressedRows(BEFORE, ROW0, ROW16, ROW32, ROW48, ROW64, V0, V16, V32, V48, V64, V80);
  }
}
