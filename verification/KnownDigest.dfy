/** Two keys with known digests: "l", for which the server does not answer what the standard asks,
    and the sample key of section 1.3 of RFC 6455, whose digest takes two blocks. */
module KnownDigest {
  import opened Sha1Spec
  import Text
  import Base64
  import Handshake
  import TraceOfL
  import TraceOfSample0
  import TraceOfSample1

  // ----- Bytes of texts -----

  // A byte is determined by its value.
  lemma BitsOfByte(b: Byte)
    ensures (b as int) as Byte == b
  {
  }

  lemma DigitIs(n: nat, weight: nat, b: Byte)
    requires weight > 0 && n / weight % 256 == b as int
    ensures Digit(n, weight) == b
  {
    BitsOfByte(b);
  }

  lemma ByteIs(c: char, b: Byte)
    requires c as int == b as int
    ensures Handshake.ByteOf(c) == b
  {
    BitsOfByte(b);
  }

  lemma BytesOfText(a: string, b: string)
    ensures Handshake.Bytes(a + b) == Handshake.Bytes(a) + Handshake.Bytes(b)
  {
    hide Handshake.ByteOf;
  }

  lemma Magic0()
    ensures Handshake.MAGIC[0] == '2'
    ensures Handshake.MAGIC[1] == '5'
    ensures Handshake.MAGIC[2] == '8'
    ensures Handshake.MAGIC[3] == 'E'
  {
  }

  lemma Magic4()
    ensures Handshake.MAGIC[4] == 'A'
    ensures Handshake.MAGIC[5] == 'F'
    ensures Handshake.MAGIC[6] == 'A'
    ensures Handshake.MAGIC[7] == '5'
  {
  }

  lemma Magic8()
    ensures Handshake.MAGIC[8] == '-'
    ensures Handshake.MAGIC[9] == 'E'
    ensures Handshake.MAGIC[10] == '9'
    ensures Handshake.MAGIC[11] == '1'
  {
  }

  lemma Magic12()
    ensures Handshake.MAGIC[12] == '4'
    ensures Handshake.MAGIC[13] == '-'
    ensures Handshake.MAGIC[14] == '4'
    ensures Handshake.MAGIC[15] == '7'
  {
  }

  lemma Magic16()
    ensures Handshake.MAGIC[16] == 'D'
    ensures Handshake.MAGIC[17] == 'A'
    ensures Handshake.MAGIC[18] == '-'
    ensures Handshake.MAGIC[19] == '9'
  {
  }

  lemma Magic20()
    ensures Handshake.MAGIC[20] == '5'
    ensures Handshake.MAGIC[21] == 'C'
    ensures Handshake.MAGIC[22] == 'A'
    ensures Handshake.MAGIC[23] == '-'
  {
  }

  lemma Magic24()
    ensures Handshake.MAGIC[24] == 'C'
    ensures Handshake.MAGIC[25] == '5'
    ensures Handshake.MAGIC[26] == 'A'
    ensures Handshake.MAGIC[27] == 'B'
  {
  }

  lemma Magic28()
    ensures Handshake.MAGIC[28] == '0'
    ensures Handshake.MAGIC[29] == 'D'
    ensures Handshake.MAGIC[30] == 'C'
    ensures Handshake.MAGIC[31] == '8'
  {
  }

  lemma Magic32()
    ensures Handshake.MAGIC[32] == '5'
    ensures Handshake.MAGIC[33] == 'B'
    ensures Handshake.MAGIC[34] == '1'
    ensures Handshake.MAGIC[35] == '1'
  {
  }

  // The magic string in parts that fill up a row of sixteen characters behind either key.
  lemma Magic0To15()
    ensures Handshake.MAGIC[0..15] == "258EAFA5-E914-4"
  {
    Magic0();
    Magic4();
    Magic8();
    Magic12();
  }

  lemma Magic15To31()
    ensures Handshake.MAGIC[15..31] == "7DA-95CA-C5AB0DC"
  {
    Magic12();
    Magic16();
    Magic20();
    Magic24();
    Magic28();
  }

  lemma Magic31To36()
    ensures Handshake.MAGIC[31..36] == "85B11"
  {
    Magic28();
    Magic32();
  }

  lemma Magic0To8()
    ensures Handshake.MAGIC[0..8] == "258EAFA5"
  {
    Magic0();
    Magic4();
  }

  lemma Magic8To24()
    ensures Handshake.MAGIC[8..24] == "-E914-47DA-95CA-"
  {
    Magic8();
    Magic12();
    Magic16();
    Magic20();
  }

  lemma Magic24To36()
    ensures Handshake.MAGIC[24..36] == "C5AB0DC85B11"
  {
    Magic24();
    Magic28();
    Magic32();
  }

  lemma FourRowsOf(r: seq<seq<Byte>>, i: nat, k: nat)
    requires |r| == 4 && (forall j :: 0 <= j < 4 ==> |r[j]| == 16) && i < 4 && k < 4
    ensures BlockWords(r[0] + r[1] + r[2] + r[3])[4 * i + k] == WordAt(r[i], k)
  {
    hide WordOfBytes;
  }

  predicate RowIs(bytes: seq<Byte>, words: seq<Word>, i: nat) {
    && |bytes| == 16 && |words| == 16 && i < 4
    && forall k :: 0 <= k < 4 ==> WordAt(bytes, k) == words[4 * i + k]
  }

  // The words of a block in four rows of bytes.
  lemma FourRows(b0: seq<Byte>, b1: seq<Byte>, b2: seq<Byte>, b3: seq<Byte>, words: seq<Word>)
    requires RowIs(b0, words, 0) && RowIs(b1, words, 1) && RowIs(b2, words, 2) && RowIs(b3, words, 3)
    ensures BlockWords(b0 + b1 + b2 + b3) == words
  {
    hide WordAt;
    var r := [b0, b1, b2, b3];
    forall k | 0 <= k < 16
      ensures BlockWords(b0 + b1 + b2 + b3)[k] == words[k]
    {
      FourRowsOf(r, k / 4, k % 4);
      assert RowIs(r[k / 4], words, k / 4);
    }
  }

  // ----- The key "l" -----

  const L_TEXT0 := "l258EAFA5-E914-4"
  const L_TEXT1 := "7DA-95CA-C5AB0DC"
  const L_TEXT2 := "85B11"

  const L_BYTES0: seq<Byte> := [
    0x6c, 0x32, 0x35, 0x38, 0x45, 0x41, 0x46, 0x41,
    0x35, 0x2d, 0x45, 0x39, 0x31, 0x34, 0x2d, 0x34]
  const L_BYTES1: seq<Byte> := [
    0x37, 0x44, 0x41, 0x2d, 0x39, 0x35, 0x43, 0x41,
    0x2d, 0x43, 0x35, 0x41, 0x42, 0x30, 0x44, 0x43]
  const L_BYTES2: seq<Byte> := [0x38, 0x35, 0x42, 0x31, 0x31]

  // What the padding makes of the rest of the block.
  const L_END2: seq<Byte> := [
    0x38, 0x35, 0x42, 0x31, 0x31, 0x80, 0x00, 0x00,
    0x00, 0x00, 0x00, 0x00, 0x00, 0x00, 0x00, 0x00]
  const L_END3: seq<Byte> := [
    0x00, 0x00, 0x00, 0x00, 0x00, 0x00, 0x00, 0x00,
    0x00, 0x00, 0x00, 0x00, 0x00, 0x00, 0x01, 0x28]

  function LMessage(): (message: seq<Byte>)
    ensures |message| == 37
  {
    L_BYTES0 + L_BYTES1 + L_BYTES2
  }

  lemma LBytes0()
    ensures Handshake.Bytes(L_TEXT0) == L_BYTES0
  {
    hide Handshake.ByteOf;
    ByteIs('-', 0x2d);
    ByteIs('1', 0x31);
    ByteIs('2', 0x32);
    ByteIs('4', 0x34);
    ByteIs('5', 0x35);
    ByteIs('8', 0x38);
    ByteIs('9', 0x39);
    ByteIs('A', 0x41);
    ByteIs('E', 0x45);
    ByteIs('F', 0x46);
    ByteIs('l', 0x6c);
  }

  lemma LBytes1()
    ensures Handshake.Bytes(L_TEXT1) == L_BYTES1
  {
    hide Handshake.ByteOf;
    ByteIs('-', 0x2d);
    ByteIs('0', 0x30);
    ByteIs('5', 0x35);
    ByteIs('7', 0x37);
    ByteIs('9', 0x39);
    ByteIs('A', 0x41);
    ByteIs('B', 0x42);
    ByteIs('C', 0x43);
    ByteIs('D', 0x44);
  }

  lemma LBytes2()
    ensures Handshake.Bytes(L_TEXT2) == L_BYTES2
  {
    hide Handshake.ByteOf;
    ByteIs('1', 0x31);
    ByteIs('5', 0x35);
    ByteIs('8', 0x38);
    ByteIs('B', 0x42);
  }

  lemma LText()
    ensures "l" + Handshake.MAGIC == L_TEXT0 + L_TEXT1 + L_TEXT2
  {
    Magic0To15();
    Magic15To31();
    Magic31To36();
    var m := Handshake.MAGIC;
    assert m == m[0..15] + m[15..31] + m[31..36];
    assert L_TEXT0 == "l" + "258EAFA5-E914-4";
    Behind("l", m[0..15], m[15..31], m[31..36]);
  }

  lemma Behind(key: string, a: string, b: string, c: string)
    ensures key + (a + b + c) == key + a + b + c
  {
  }

  lemma LBytes()
    ensures Handshake.Bytes("l" + Handshake.MAGIC) == LMessage()
  {
    LText();
    LBytes0();
    LBytes1();
    LBytes2();
    hide Handshake.Bytes;
    BytesOfText(L_TEXT0, L_TEXT1);
    BytesOfText(L_TEXT0 + L_TEXT1, L_TEXT2);
  }

  lemma ZeroDigits()
    ensures FourBytes(0) == [0, 0, 0, 0]
  {
    DigitIs(0, 0x100_0000, 0);
    DigitIs(0, 0x1_0000, 0);
    DigitIs(0, 0x100, 0);
    DigitIs(0, 1, 0);
    hide Digit;
  }

  lemma LLength()
    ensures EightBytes(296) == [0, 0, 0, 0, 0, 0, 1, 0x28]
  {
    ZeroDigits();
    DigitIs(296, 0x100_0000, 0);
    DigitIs(296, 0x1_0000, 0);
    DigitIs(296, 0x100, 1);
    DigitIs(296, 1, 0x28);
    hide Digit;
    assert FourBytes(296) == [0, 0, 1, 0x28];
  }

  lemma LPadded()
    ensures Pad(LMessage()) == L_BYTES0 + L_BYTES1 + L_END2 + L_END3
  {
    LLength();
    hide EightBytes;
    assert ZeroCount(37) == 18;
    assert Zeros(18) == Zeros(10) + Zeros(8);
    assert L_BYTES2 + [0x80] + Zeros(10) == L_END2;
    assert Zeros(8) + EightBytes(296) == L_END3;
    Regroup(L_BYTES0 + L_BYTES1, L_BYTES2, [0x80], Zeros(10), Zeros(8), EightBytes(296));
  }

  lemma Regroup(a: seq<Byte>, b: seq<Byte>, c: seq<Byte>, d: seq<Byte>, e: seq<Byte>, f: seq<Byte>)
    ensures a + b + c + (d + e) + f == a + (b + c + d) + (e + f)
  {
  }

  lemma LWords()
    ensures WordOfBytes(0x6c, 0x32, 0x35, 0x38) == 0x6c323538
    ensures WordOfBytes(0x45, 0x41, 0x46, 0x41) == 0x45414641
    ensures WordOfBytes(0x35, 0x2d, 0x45, 0x39) == 0x352d4539
    ensures WordOfBytes(0x31, 0x34, 0x2d, 0x34) == 0x31342d34
    ensures WordOfBytes(0x37, 0x44, 0x41, 0x2d) == 0x3744412d
    ensures WordOfBytes(0x39, 0x35, 0x43, 0x41) == 0x39354341
    ensures WordOfBytes(0x2d, 0x43, 0x35, 0x41) == 0x2d433541
    ensures WordOfBytes(0x42, 0x30, 0x44, 0x43) == 0x42304443
    ensures WordOfBytes(0x38, 0x35, 0x42, 0x31) == 0x38354231
    ensures WordOfBytes(0x31, 0x80, 0x00, 0x00) == 0x31800000
    ensures WordOfBytes(0x00, 0x00, 0x00, 0x00) == 0x00000000
    ensures WordOfBytes(0x00, 0x00, 0x01, 0x28) == 0x00000128
  {
  }

  lemma LRow0()
    ensures RowIs(L_BYTES0, TraceOfL.ROW0, 0)
  {
    hide WordOfBytes;
    LWords();
    assert WordAt(L_BYTES0, 0) == TraceOfL.ROW0[0];
    assert WordAt(L_BYTES0, 1) == TraceOfL.ROW0[1];
    assert WordAt(L_BYTES0, 2) == TraceOfL.ROW0[2];
    assert WordAt(L_BYTES0, 3) == TraceOfL.ROW0[3];
  }

  lemma LRow1()
    ensures RowIs(L_BYTES1, TraceOfL.ROW0, 1)
  {
    hide WordOfBytes;
    LWords();
    assert WordAt(L_BYTES1, 0) == TraceOfL.ROW0[4];
    assert WordAt(L_BYTES1, 1) == TraceOfL.ROW0[5];
    assert WordAt(L_BYTES1, 2) == TraceOfL.ROW0[6];
    assert WordAt(L_BYTES1, 3) == TraceOfL.ROW0[7];
  }

  lemma LRow2()
    ensures RowIs(L_END2, TraceOfL.ROW0, 2)
  {
    hide WordOfBytes;
    LWords();
    assert WordAt(L_END2, 0) == TraceOfL.ROW0[8];
    assert WordAt(L_END2, 1) == TraceOfL.ROW0[9];
    assert WordAt(L_END2, 2) == TraceOfL.ROW0[10];
    assert WordAt(L_END2, 3) == TraceOfL.ROW0[11];
  }

  lemma LRow3()
    ensures RowIs(L_END3, TraceOfL.ROW0, 3)
  {
    hide WordOfBytes;
    LWords();
    assert WordAt(L_END3, 0) == TraceOfL.ROW0[12];
    assert WordAt(L_END3, 1) == TraceOfL.ROW0[13];
    assert WordAt(L_END3, 2) == TraceOfL.ROW0[14];
    assert WordAt(L_END3, 3) == TraceOfL.ROW0[15];
  }

  // The one block of the padded message.
  lemma LBlock()
    ensures |Pad(LMessage())| == 64 && BlockWords(Block(Pad(LMessage()), 0)) == TraceOfL.ROW0
  {
    LPadded();
    LRow0();
    LRow1();
    LRow2();
    LRow3();
    hide Pad, RowIs;
    FourRows(L_BYTES0, L_BYTES1, L_END2, L_END3, TraceOfL.ROW0);
    var p := L_BYTES0 + L_BYTES1 + L_END2 + L_END3;
    assert Block(p, 0) == p;
  }

  lemma LDigest()
    ensures forall k :: 0 <= k < 20 ==> Sha1Spec.Sha1(LMessage())[k] == ByteOfWord(TraceOfL.AFTER[k / 4], k % 4)
  {
    LBlock();
    TraceOfL.CompressedBlock();
    hide Compress, ByteOfWord, Pad;
    assert HashAfter(Pad(LMessage()), 0) == INITIAL_HASH;
    assert HashAfter(Pad(LMessage()), 1) == TraceOfL.AFTER;
  }

  // The digest of the key "l" has a zero byte with a nonzero one after it...
  lemma ZeroInside()
    ensures Handshake.KeyDigest("l")[10] == 0 && Handshake.KeyDigest("l")[11] == 0x48
  {
    LBytes();
    LDigest();
    assert ByteOfWord(TraceOfL.AFTER[2], 2) == 0 && ByteOfWord(TraceOfL.AFTER[2], 3) == 0x48;
    hide Sha1Spec.Sha1, ByteOfWord, Handshake.Bytes;
  }

  // ...so for this key the server does not answer what the standard asks.
  lemma WrongAnswer()
    ensures Base64.Encode(Handshake.Cut(Handshake.CodeDigest("l"))) != Handshake.StandardAccept("l")
  {
    ZeroInside();
    Handshake.AcceptIsExact("l");
  }

  // ----- The sample key -----

  const SAMPLE := "dGhlIHNhbXBsZSBub25jZQ=="

  const S_TEXT0 := "dGhlIHNhbXBsZSBu"
  const S_TEXT1 := "b25jZQ==258EAFA5"
  const S_TEXT2 := "-E914-47DA-95CA-"
  const S_TEXT3 := "C5AB0DC85B11"

  const S_BYTES0: seq<Byte> := [
    0x64, 0x47, 0x68, 0x6c, 0x49, 0x48, 0x4e, 0x68,
    0x62, 0x58, 0x42, 0x73, 0x5a, 0x53, 0x42, 0x75]
  const S_BYTES1: seq<Byte> := [
    0x62, 0x32, 0x35, 0x6a, 0x5a, 0x51, 0x3d, 0x3d,
    0x32, 0x35, 0x38, 0x45, 0x41, 0x46, 0x41, 0x35]
  const S_BYTES2: seq<Byte> := [
    0x2d, 0x45, 0x39, 0x31, 0x34, 0x2d, 0x34, 0x37,
    0x44, 0x41, 0x2d, 0x39, 0x35, 0x43, 0x41, 0x2d]
  const S_BYTES3: seq<Byte> := [
    0x43, 0x35, 0x41, 0x42, 0x30, 0x44, 0x43, 0x38,
    0x35, 0x42, 0x31, 0x31]

  // What the padding makes of the rest of the two blocks.
  const S_END3: seq<Byte> := [
    0x43, 0x35, 0x41, 0x42, 0x30, 0x44, 0x43, 0x38,
    0x35, 0x42, 0x31, 0x31, 0x80, 0x00, 0x00, 0x00]
  const S_END7: seq<Byte> := [
    0x00, 0x00, 0x00, 0x00, 0x00, 0x00, 0x00, 0x00,
    0x00, 0x00, 0x00, 0x00, 0x00, 0x00, 0x01, 0xe0]

  function SampleMessage(): (message: seq<Byte>)
    ensures |message| == 60
  {
    S_BYTES0 + S_BYTES1 + S_BYTES2 + S_BYTES3
  }

  lemma SampleBytes0()
    ensures Handshake.Bytes(S_TEXT0) == S_BYTES0
  {
    hide Handshake.ByteOf;
    ByteIs('B', 0x42);
    ByteIs('G', 0x47);
    ByteIs('H', 0x48);
    ByteIs('I', 0x49);
    ByteIs('N', 0x4e);
    ByteIs('S', 0x53);
    ByteIs('X', 0x58);
    ByteIs('Z', 0x5a);
    ByteIs('b', 0x62);
    ByteIs('d', 0x64);
    ByteIs('h', 0x68);
    ByteIs('l', 0x6c);
    ByteIs('s', 0x73);
    ByteIs('u', 0x75);
  }

  lemma SampleBytes1()
    ensures Handshake.Bytes(S_TEXT1) == S_BYTES1
  {
    hide Handshake.ByteOf;
    ByteIs('2', 0x32);
    ByteIs('5', 0x35);
    ByteIs('8', 0x38);
    ByteIs('=', 0x3d);
    ByteIs('A', 0x41);
    ByteIs('E', 0x45);
    ByteIs('F', 0x46);
    ByteIs('Q', 0x51);
    ByteIs('Z', 0x5a);
    ByteIs('b', 0x62);
    ByteIs('j', 0x6a);
  }

  lemma SampleBytes2()
    ensures Handshake.Bytes(S_TEXT2) == S_BYTES2
  {
    hide Handshake.ByteOf;
    ByteIs('-', 0x2d);
    ByteIs('1', 0x31);
    ByteIs('4', 0x34);
    ByteIs('5', 0x35);
    ByteIs('7', 0x37);
    ByteIs('9', 0x39);
    ByteIs('A', 0x41);
    ByteIs('C', 0x43);
    ByteIs('D', 0x44);
    ByteIs('E', 0x45);
  }

  lemma SampleBytes3()
    ensures Handshake.Bytes(S_TEXT3) == S_BYTES3
  {
    hide Handshake.ByteOf;
    ByteIs('0', 0x30);
    ByteIs('1', 0x31);
    ByteIs('5', 0x35);
    ByteIs('8', 0x38);
    ByteIs('A', 0x41);
    ByteIs('B', 0x42);
    ByteIs('C', 0x43);
    ByteIs('D', 0x44);
  }

  lemma SampleText()
    ensures SAMPLE + Handshake.MAGIC == S_TEXT0 + S_TEXT1 + S_TEXT2 + S_TEXT3
  {
    Magic0To8();
    Magic8To24();
    Magic24To36();
    var m := Handshake.MAGIC;
    assert m == m[0..8] + m[8..24] + m[24..36];
    assert SAMPLE == S_TEXT0 + "b25jZQ==";
    assert S_TEXT1 == "b25jZQ==" + "258EAFA5";
    Behind(SAMPLE, m[0..8], m[8..24], m[24..36]);
    assert SAMPLE + m[0..8] == S_TEXT0 + S_TEXT1;
  }

  lemma SampleBytes()
    ensures Handshake.Bytes(SAMPLE + Handshake.MAGIC) == SampleMessage()
  {
    SampleText();
    SampleBytes0();
    SampleBytes1();
    SampleBytes2();
    SampleBytes3();
    hide Handshake.Bytes;
    BytesOfText(S_TEXT0, S_TEXT1);
    BytesOfText(S_TEXT0 + S_TEXT1, S_TEXT2);
    BytesOfText(S_TEXT0 + S_TEXT1 + S_TEXT2, S_TEXT3);
  }

  lemma SampleLength()
    ensures EightBytes(480) == [0, 0, 0, 0, 0, 0, 1, 0xe0]
  {
    ZeroDigits();
    DigitIs(480, 0x100_0000, 0);
    DigitIs(480, 0x1_0000, 0);
    DigitIs(480, 0x100, 1);
    DigitIs(480, 1, 0xe0);
    hide Digit;
    assert FourBytes(480) == [0, 0, 1, 0xe0];
  }

  function SampleBlock0(): (block: seq<Byte>)
    ensures |block| == 64
  {
    S_BYTES0 + S_BYTES1 + S_BYTES2 + S_END3
  }

  function SampleBlock1(): (block: seq<Byte>)
    ensures |block| == 64
  {
    Zeros(16) + Zeros(16) + Zeros(16) + S_END7
  }

  lemma SamplePadded()
    ensures Pad(SampleMessage()) == SampleBlock0() + SampleBlock1()
  {
    SampleLength();
    hide EightBytes;
    assert ZeroCount(60) == 59;
    assert Zeros(59) == Zeros(3) + Zeros(56);
    assert S_BYTES3 + [0x80] + Zeros(3) == S_END3;
    assert Zeros(56) == Zeros(16) + Zeros(16) + Zeros(16) + Zeros(8);
    assert Zeros(8) + EightBytes(480) == S_END7;
    Text.Associative(Zeros(16) + Zeros(16) + Zeros(16), Zeros(8), EightBytes(480));
    Regroup(S_BYTES0 + S_BYTES1 + S_BYTES2, S_BYTES3, [0x80], Zeros(3), Zeros(56), EightBytes(480));
  }

  lemma SampleWords0()
    ensures WordOfBytes(0x64, 0x47, 0x68, 0x6c) == 0x6447686c
    ensures WordOfBytes(0x49, 0x48, 0x4e, 0x68) == 0x49484e68
    ensures WordOfBytes(0x62, 0x58, 0x42, 0x73) == 0x62584273
    ensures WordOfBytes(0x5a, 0x53, 0x42, 0x75) == 0x5a534275
    ensures WordOfBytes(0x62, 0x32, 0x35, 0x6a) == 0x6232356a
    ensures WordOfBytes(0x5a, 0x51, 0x3d, 0x3d) == 0x5a513d3d
    ensures WordOfBytes(0x32, 0x35, 0x38, 0x45) == 0x32353845
    ensures WordOfBytes(0x41, 0x46, 0x41, 0x35) == 0x41464135
    ensures WordOfBytes(0x2d, 0x45, 0x39, 0x31) == 0x2d453931
    ensures WordOfBytes(0x34, 0x2d, 0x34, 0x37) == 0x342d3437
    ensures WordOfBytes(0x44, 0x41, 0x2d, 0x39) == 0x44412d39
    ensures WordOfBytes(0x35, 0x43, 0x41, 0x2d) == 0x3543412d
    ensures WordOfBytes(0x43, 0x35, 0x41, 0x42) == 0x43354142
    ensures WordOfBytes(0x30, 0x44, 0x43, 0x38) == 0x30444338
    ensures WordOfBytes(0x35, 0x42, 0x31, 0x31) == 0x35423131
    ensures WordOfBytes(0x80, 0x00, 0x00, 0x00) == 0x80000000
  {
  }

  lemma SampleRow0()
    ensures RowIs(S_BYTES0, TraceOfSample0.ROW0, 0)
  {
    hide WordOfBytes;
    SampleWords0();
    assert WordAt(S_BYTES0, 0) == TraceOfSample0.ROW0[0];
    assert WordAt(S_BYTES0, 1) == TraceOfSample0.ROW0[1];
    assert WordAt(S_BYTES0, 2) == TraceOfSample0.ROW0[2];
    assert WordAt(S_BYTES0, 3) == TraceOfSample0.ROW0[3];
  }

  lemma SampleRow1()
    ensures RowIs(S_BYTES1, TraceOfSample0.ROW0, 1)
  {
    hide WordOfBytes;
    SampleWords0();
    assert WordAt(S_BYTES1, 0) == TraceOfSample0.ROW0[4];
    assert WordAt(S_BYTES1, 1) == TraceOfSample0.ROW0[5];
    assert WordAt(S_BYTES1, 2) == TraceOfSample0.ROW0[6];
    assert WordAt(S_BYTES1, 3) == TraceOfSample0.ROW0[7];
  }

  lemma SampleRow2()
    ensures RowIs(S_BYTES2, TraceOfSample0.ROW0, 2)
  {
    hide WordOfBytes;
    SampleWords0();
    assert WordAt(S_BYTES2, 0) == TraceOfSample0.ROW0[8];
    assert WordAt(S_BYTES2, 1) == TraceOfSample0.ROW0[9];
    assert WordAt(S_BYTES2, 2) == TraceOfSample0.ROW0[10];
    assert WordAt(S_BYTES2, 3) == TraceOfSample0.ROW0[11];
  }

  lemma SampleRow3()
    ensures RowIs(S_END3, TraceOfSample0.ROW0, 3)
  {
    hide WordOfBytes;
    SampleWords0();
    assert WordAt(S_END3, 0) == TraceOfSample0.ROW0[12];
    assert WordAt(S_END3, 1) == TraceOfSample0.ROW0[13];
    assert WordAt(S_END3, 2) == TraceOfSample0.ROW0[14];
    assert WordAt(S_END3, 3) == TraceOfSample0.ROW0[15];
  }

  lemma SampleWords1()
    ensures WordOfBytes(0x00, 0x00, 0x00, 0x00) == 0x00000000
    ensures WordOfBytes(0x00, 0x00, 0x01, 0xe0) == 0x000001e0
  {
  }

  lemma SampleRow4()
    ensures RowIs(Zeros(16), TraceOfSample1.ROW0, 0)
  {
    hide WordOfBytes;
    SampleWords1();
    assert WordAt(Zeros(16), 0) == TraceOfSample1.ROW0[0];
    assert WordAt(Zeros(16), 1) == TraceOfSample1.ROW0[1];
    assert WordAt(Zeros(16), 2) == TraceOfSample1.ROW0[2];
    assert WordAt(Zeros(16), 3) == TraceOfSample1.ROW0[3];
  }

  lemma SampleRow5()
    ensures RowIs(Zeros(16), TraceOfSample1.ROW0, 1)
  {
    hide WordOfBytes;
    SampleWords1();
    assert WordAt(Zeros(16), 0) == TraceOfSample1.ROW0[4];
    assert WordAt(Zeros(16), 1) == TraceOfSample1.ROW0[5];
    assert WordAt(Zeros(16), 2) == TraceOfSample1.ROW0[6];
    assert WordAt(Zeros(16), 3) == TraceOfSample1.ROW0[7];
  }

  lemma SampleRow6()
    ensures RowIs(Zeros(16), TraceOfSample1.ROW0, 2)
  {
    hide WordOfBytes;
    SampleWords1();
    assert WordAt(Zeros(16), 0) == TraceOfSample1.ROW0[8];
    assert WordAt(Zeros(16), 1) == TraceOfSample1.ROW0[9];
    assert WordAt(Zeros(16), 2) == TraceOfSample1.ROW0[10];
    assert WordAt(Zeros(16), 3) == TraceOfSample1.ROW0[11];
  }

  lemma SampleRow7()
    ensures RowIs(S_END7, TraceOfSample1.ROW0, 3)
  {
    hide WordOfBytes;
    SampleWords1();
    assert WordAt(S_END7, 0) == TraceOfSample1.ROW0[12];
    assert WordAt(S_END7, 1) == TraceOfSample1.ROW0[13];
    assert WordAt(S_END7, 2) == TraceOfSample1.ROW0[14];
    assert WordAt(S_END7, 3) == TraceOfSample1.ROW0[15];
  }

  lemma SampleBlockWords()
    ensures BlockWords(SampleBlock0()) == TraceOfSample0.ROW0
    ensures BlockWords(SampleBlock1()) == TraceOfSample1.ROW0
  {
    SampleRow0();
    SampleRow1();
    SampleRow2();
    SampleRow3();
    SampleRow4();
    SampleRow5();
    SampleRow6();
    SampleRow7();
    hide RowIs, BlockWords;
    FourRows(S_BYTES0, S_BYTES1, S_BYTES2, S_END3, TraceOfSample0.ROW0);
    FourRows(Zeros(16), Zeros(16), Zeros(16), S_END7, TraceOfSample1.ROW0);
  }

  lemma SampleHash()
    ensures |Pad(SampleMessage())| == 128 && HashAfter(Pad(SampleMessage()), 2) == TraceOfSample1.AFTER
  {
    SamplePadded();
    SampleBlockWords();
    TraceOfSample0.CompressedBlock();
    TraceOfSample1.CompressedBlock();
    hide Compress, Pad, BlockWords, SampleBlock0, SampleBlock1;
    var p := Pad(SampleMessage());
    assert Block(p, 0) == SampleBlock0() && Block(p, 1) == SampleBlock1();
    assert TraceOfSample0.AFTER == TraceOfSample1.BEFORE;
    assert HashAfter(p, 0) == INITIAL_HASH;
    assert HashAfter(p, 1) == TraceOfSample0.AFTER;
  }

  lemma SampleDigest()
    ensures forall k :: 0 <= k < 20 ==>
              Sha1Spec.Sha1(SampleMessage())[k] == ByteOfWord(TraceOfSample1.AFTER[k / 4], k % 4)
  {
    SampleHash();
    hide Compress, ByteOfWord, Pad, HashAfter;
  }

  const OCTETS: seq<Base64.Octet> := [
    0xb3, 0x7a, 0x4f, 0x2c, 0xc0, 0x62, 0x4f, 0x16, 0x90, 0xf6,
    0x46, 0x06, 0xcf, 0x38, 0x59, 0x45, 0xb2, 0xbe, 0xc4, 0xea]

  lemma SampleWord0()
    ensures ByteOfWord(TraceOfSample1.AFTER[0], 0) as int == OCTETS[0]
    ensures ByteOfWord(TraceOfSample1.AFTER[0], 1) as int == OCTETS[1]
    ensures ByteOfWord(TraceOfSample1.AFTER[0], 2) as int == OCTETS[2]
    ensures ByteOfWord(TraceOfSample1.AFTER[0], 3) as int == OCTETS[3]
  {
  }

  lemma SampleWord1()
    ensures ByteOfWord(TraceOfSample1.AFTER[1], 0) as int == OCTETS[4]
    ensures ByteOfWord(TraceOfSample1.AFTER[1], 1) as int == OCTETS[5]
    ensures ByteOfWord(TraceOfSample1.AFTER[1], 2) as int == OCTETS[6]
    ensures ByteOfWord(TraceOfSample1.AFTER[1], 3) as int == OCTETS[7]
  {
  }

  lemma SampleWord2()
    ensures ByteOfWord(TraceOfSample1.AFTER[2], 0) as int == OCTETS[8]
    ensures ByteOfWord(TraceOfSample1.AFTER[2], 1) as int == OCTETS[9]
    ensures ByteOfWord(TraceOfSample1.AFTER[2], 2) as int == OCTETS[10]
    ensures ByteOfWord(TraceOfSample1.AFTER[2], 3) as int == OCTETS[11]
  {
  }

  lemma SampleWord3()
    ensures ByteOfWord(TraceOfSample1.AFTER[3], 0) as int == OCTETS[12]
    ensures ByteOfWord(TraceOfSample1.AFTER[3], 1) as int == OCTETS[13]
    ensures ByteOfWord(TraceOfSample1.AFTER[3], 2) as int == OCTETS[14]
    ensures ByteOfWord(TraceOfSample1.AFTER[3], 3) as int == OCTETS[15]
  {
  }

  lemma SampleWord4()
    ensures ByteOfWord(TraceOfSample1.AFTER[4], 0) as int == OCTETS[16]
    ensures ByteOfWord(TraceOfSample1.AFTER[4], 1) as int == OCTETS[17]
    ensures ByteOfWord(TraceOfSample1.AFTER[4], 2) as int == OCTETS[18]
    ensures ByteOfWord(TraceOfSample1.AFTER[4], 3) as int == OCTETS[19]
  {
  }

  lemma SampleOctets()
    ensures Handshake.KeyDigest(SAMPLE) == OCTETS
  {
    SampleBytes();
    SampleDigest();
    SampleWord0();
    SampleWord1();
    SampleWord2();
    SampleWord3();
    SampleWord4();
    hide Sha1Spec.Sha1, ByteOfWord, Handshake.Bytes;
    var digest := Handshake.KeyDigest(SAMPLE);
    assert digest[0] == OCTETS[0] && digest[1] == OCTETS[1] && digest[2] == OCTETS[2] && digest[3] == OCTETS[3];
    assert digest[4] == OCTETS[4] && digest[5] == OCTETS[5] && digest[6] == OCTETS[6] && digest[7] == OCTETS[7];
    assert digest[8] == OCTETS[8] && digest[9] == OCTETS[9] && digest[10] == OCTETS[10] && digest[11] == OCTETS[11];
    assert digest[12] == OCTETS[12] && digest[13] == OCTETS[13] && digest[14] == OCTETS[14] && digest[15] == OCTETS[15];
    assert digest[16] == OCTETS[16] && digest[17] == OCTETS[17] && digest[18] == OCTETS[18] && digest[19] == OCTETS[19];
  }

  lemma Letters0()
    ensures Base64.Encode([0xb3, 0x7a, 0x4f]) == "s3pP"
  {
    Base64.LettersOf(0xb3, 0x7a, 0x4f, 44, 55, 41, 15);
  }

  lemma Letters1()
    ensures Base64.Encode([0x2c, 0xc0, 0x62]) == "LMBi"
  {
    Base64.LettersOf(0x2c, 0xc0, 0x62, 11, 12, 1, 34);
  }

  lemma Letters2()
    ensures Base64.Encode([0x4f, 0x16, 0x90]) == "TxaQ"
  {
    Base64.LettersOf(0x4f, 0x16, 0x90, 19, 49, 26, 16);
  }

  lemma Letters3()
    ensures Base64.Encode([0xf6, 0x46, 0x06]) == "9kYG"
  {
    Base64.LettersOf(0xf6, 0x46, 0x06, 61, 36, 24, 6);
  }

  lemma Letters4()
    ensures Base64.Encode([0xcf, 0x38, 0x59]) == "zzhZ"
  {
    Base64.LettersOf(0xcf, 0x38, 0x59, 51, 51, 33, 25);
  }

  lemma Letters5()
    ensures Base64.Encode([0x45, 0xb2, 0xbe]) == "RbK+"
  {
    Base64.LettersOf(0x45, 0xb2, 0xbe, 17, 27, 10, 62);
  }

  lemma Letters6()
    ensures Base64.Encode([0xc4, 0xea]) == "xOo="
  {
    Base64.LettersOf(0xc4, 0xea, 0, 49, 14, 40, 0);
  }

  lemma EncodeThree(a: Base64.Octet, b: Base64.Octet, c: Base64.Octet, rest: seq<Base64.Octet>)
    ensures Base64.Encode([a, b, c] + rest) == Base64.Encode([a, b, c]) + Base64.Encode(rest)
  {
    hide *;
    Base64.EncodeParts([a, b, c], rest);
  }

  lemma LettersFrom9()
    ensures Base64.Encode([0xf6, 0x46, 0x06, 0xcf, 0x38, 0x59, 0x45, 0xb2, 0xbe, 0xc4, 0xea]) == "9kYGzzhZRbK+xOo="
  {
    Letters3();
    Letters4();
    Letters5();
    Letters6();
    hide Base64.Encode;
    EncodeThree(0x45, 0xb2, 0xbe, [0xc4, 0xea]);
    EncodeThree(0xcf, 0x38, 0x59, [0x45, 0xb2, 0xbe] + [0xc4, 0xea]);
    var end := [0xcf, 0x38, 0x59] + ([0x45, 0xb2, 0xbe] + [0xc4, 0xea]);
    EncodeThree(0xf6, 0x46, 0x06, end);
    assert [0xf6, 0x46, 0x06, 0xcf, 0x38, 0x59, 0x45, 0xb2, 0xbe, 0xc4, 0xea] == [0xf6, 0x46, 0x06] + end;
  }

  lemma LettersFrom3()
    ensures Base64.Encode(OCTETS[3..]) == "LMBiTxaQ9kYGzzhZRbK+xOo="
  {
    Letters1();
    Letters2();
    LettersFrom9();
    hide Base64.Encode;
    var end := [0xf6, 0x46, 0x06, 0xcf, 0x38, 0x59, 0x45, 0xb2, 0xbe, 0xc4, 0xea];
    EncodeThree(0x4f, 0x16, 0x90, end);
    EncodeThree(0x2c, 0xc0, 0x62, [0x4f, 0x16, 0x90] + end);
    assert OCTETS[3..] == [0x2c, 0xc0, 0x62] + ([0x4f, 0x16, 0x90] + end);
  }

  lemma SampleLetters()
    ensures Base64.Encode(OCTETS) == "s3pPLMBiTxaQ9kYGzzhZRbK+xOo="
  {
    Letters0();
    LettersFrom3();
    hide Base64.Encode;
    EncodeThree(0xb3, 0x7a, 0x4f, OCTETS[3..]);
    assert OCTETS == [0xb3, 0x7a, 0x4f] + OCTETS[3..];
  }

  // The example of section 1.3 of the standard, which the server answers in the same way.
  lemma SampleAnswer()
    ensures Handshake.StandardAccept("dGhlIHNhbXBsZSBub25jZQ==") == "s3pPLMBiTxaQ9kYGzzhZRbK+xOo="
    ensures Base64.Encode(Handshake.Cut(Handshake.CodeDigest("dGhlIHNhbXBsZSBub25jZQ==")))
         == "s3pPLMBiTxaQ9kYGzzhZRbK+xOo="
  {
    SampleOctets();
    SampleLetters();
    hide Base64.Encode, Handshake.KeyDigest, Handshake.Cut;
    NoZeros();
    Handshake.AcceptIsExact(SAMPLE);
  }

  lemma NoZeros()
    ensures forall i :: 0 <= i < 20 ==> OCTETS[i] != 0
  {
  }
}
