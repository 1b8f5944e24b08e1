/** SHA-1 as FIPS 180-4 defines it: pad the whole message (section 5.1.1), parse it into
    sixteen-word blocks (section 5.2.1), and fold the compression of section 6.1.2 over them,
    each block with its message schedule expanded before the first round. */
module Sha1Spec {

  type Byte = bv8
  type Word = bv32

  // ----- Words and bytes (section 3.1) -----

  // The word whose bytes are b0 b1 b2 b3, most significant first.
  function WordOfBytes(b0: Byte, b1: Byte, b2: Byte, b3: Byte): Word {
    (b3 as Word) | ((b2 as Word) << 8) | ((b1 as Word) << 16) | ((b0 as Word) << 24)
  }

  function WordAt(bytes: seq<Byte>, k: nat): Word
    requires 4 * k + 3 < |bytes|
  {
    WordOfBytes(bytes[4 * k], bytes[4 * k + 1], bytes[4 * k + 2], bytes[4 * k + 3])
  }

  // The sixteen words of a 512-bit block.
  function BlockWords(block: seq<Byte>): (words: seq<Word>)
    requires |block| == 64
    ensures |words| == 16
    ensures forall k :: 0 <= k < 16 ==> words[k] == WordAt(block, k)
  {
    seq(16, k requires 0 <= k < 16 => WordAt(block, k))
  }

  // Byte i of a word, most significant first.
  function ByteOfWord(x: Word, i: nat): Byte
    requires i < 4
  {
    if i == 0 then ((x >> 24) & 0xff) as Byte
    else if i == 1 then ((x >> 16) & 0xff) as Byte
    else if i == 2 then ((x >> 8) & 0xff) as Byte
    else (x & 0xff) as Byte
  }

  // ----- Padding (section 5.1.1) -----

  // The base-256 digit of n with the given weight.
  function Digit(n: nat, weight: nat): Byte
    requires weight > 0
  {
    (n / weight % 256) as Byte
  }

  // A number as four and as eight bytes, most significant first.
  function FourBytes(n: nat): (bytes: seq<Byte>)
    ensures |bytes| == 4
  {
    [Digit(n, 0x100_0000), Digit(n, 0x1_0000), Digit(n, 0x100), Digit(n, 1)]
  }

  function EightBytes(n: nat): (bytes: seq<Byte>)
    ensures |bytes| == 8
  {
    FourBytes(n / 0x1_0000_0000) + FourBytes(n)
  }

  function Zeros(n: nat): (z: seq<Byte>)
    ensures |z| == n
    ensures forall i :: 0 <= i < n ==> z[i] == 0
  {
    seq(n, _ => 0)
  }

  // The smallest number of zero bytes that leaves room for exactly the eight length bytes in
  // the last block of a message of n bytes.
  function ZeroCount(n: nat): (k: nat)
    ensures k < 64 && (n + 1 + k + 8) % 64 == 0
  {
    if n % 64 < 56 then 55 - n % 64 else 119 - n % 64
  }

  // The message, the bit 1 (the byte 0x80), the zeros, and the given length field.
  function PadWith(message: seq<Byte>, lengthField: seq<Byte>): (padded: seq<Byte>)
    requires |lengthField| == 8
    ensures |padded| % 64 == 0 && |padded| > |message|
    ensures message <= padded
  {
    message + [0x80] + Zeros(ZeroCount(|message|)) + lengthField
  }

  // The length field is the number of bits.
  function Pad(message: seq<Byte>): seq<Byte> {
    PadWith(message, EightBytes(8 * |message|))
  }

  // ----- Functions and constants (sections 4.1.1 and 4.2.1) -----

  function RotL(x: Word, n: Word): Word
    requires 0 < n < 32
  {
    (x << n) | (x >> (32 - n))
  }

  function Ch(x: Word, y: Word, z: Word): Word { (x & y) ^ (!x & z) }

  function Parity(x: Word, y: Word, z: Word): Word { x ^ y ^ z }

  function Maj(x: Word, y: Word, z: Word): Word { (x & y) ^ (x & z) ^ (y & z) }

  function F(t: nat, x: Word, y: Word, z: Word): Word {
    if t < 20 then Ch(x, y, z)
    else if t < 40 then Parity(x, y, z)
    else if t < 60 then Maj(x, y, z)
    else Parity(x, y, z)
  }

  function K(t: nat): Word {
    if t < 20 then 0x5a827999
    else if t < 40 then 0x6ed9eba1
    else if t < 60 then 0x8f1bbcdc
    else 0xca62c1d6
  }

  // ----- Hash computation (section 6.1.2) -----

  // Addition modulo 2^32 (section 3.2), which is what unsigned 32-bit addition computes.
  function Add(x: Word, y: Word): Word { x + y }

  function Xor(x: Word, y: Word, z: Word, u: Word): Word { x ^ y ^ z ^ u }

  // The word that follows these words in a message schedule.
  function NextWord(w: seq<Word>): Word
    requires |w| >= 16
  {
    var t := |w|;
    RotL(Xor(w[t - 3], w[t - 8], w[t - 14], w[t - 16]), 1)
  }

  // The first n words of the message schedule of a block.
  function Schedule(block: seq<Word>, n: nat): (w: seq<Word>)
    requires |block| == 16 && n >= 16
    ensures |w| == n
  {
    if n == 16 then block else Schedule(block, n - 1) + [NextWord(Schedule(block, n - 1))]
  }

  datatype Working = Working(a: Word, b: Word, c: Word, d: Word, e: Word)

  function RoundWith(v: Working, f: Word, k: Word, wt: Word): Working {
    var T := Add(Add(Add(Add(RotL(v.a, 5), f), v.e), k), wt);
    Working(T, v.a, RotL(v.b, 30), v.c, v.d)
  }

  function Round(v: Working, t: nat, wt: Word): Working {
    RoundWith(v, F(t, v.b, v.c, v.d), K(t), wt)
  }

  // The working variables after the first n rounds.
  function Rounds(v: Working, w: seq<Word>, n: nat): Working
    requires n <= |w|
  {
    if n == 0 then v else Round(Rounds(v, w, n - 1), n - 1, w[n - 1])
  }

  type Hash = h: seq<Word> | |h| == 5 witness [0, 0, 0, 0, 0]

  function Compress(h: Hash, block: seq<Word>): Hash
    requires |block| == 16
  {
    var v := Rounds(Working(h[0], h[1], h[2], h[3], h[4]), Schedule(block, 80), 80);
    [Add(h[0], v.a), Add(h[1], v.b), Add(h[2], v.c), Add(h[3], v.d), Add(h[4], v.e)]
  }

  // Section 5.3.1.
  const INITIAL_HASH: Hash := [0x67452301, 0xefcdab89, 0x98badcfe, 0x10325476, 0xc3d2e1f0]

  function Block(padded: seq<Byte>, i: nat): (block: seq<Byte>)
    requires 64 * i + 64 <= |padded|
    ensures |block| == 64
  {
    padded[64 * i..64 * i + 64]
  }

  // The intermediate hash value after the first i blocks of a padded message.
  function HashAfter(padded: seq<Byte>, i: nat): Hash
    requires 64 * i <= |padded|
  {
    if i == 0 then INITIAL_HASH else Compress(HashAfter(padded, i - 1), BlockWords(Block(padded, i - 1)))
  }

  function DigestOfPadded(padded: seq<Byte>): (digest: seq<Byte>)
    requires |padded| % 64 == 0
    ensures |digest| == 20
  {
    var h := HashAfter(padded, |padded| / 64);
    seq(20, k requires 0 <= k < 20 => ByteOfWord(h[k / 4], k % 4))
  }

  function Sha1(message: seq<Byte>): (digest: seq<Byte>)
    ensures |digest| == 20
  {
    DigestOfPadded(Pad(message))
  }
}
