/** `calcSha1`: padding, block splitting and compression in one pass over a reusable buffer of
    eighty words, proved to compute the digest of FIPS 180-4. */
module Sha1 {
  import opened Sha1Spec

  function Rol(value: Word, steps: Word): Word
    requires 0 < steps < 32
  {
    (value << steps) | (value >> (32 - steps))
  }

  method ClearWBuffer(buffer: array<Word>)
    requires buffer.Length == 80
    modifies buffer
    ensures forall i :: 0 <= i < 16 ==> buffer[i] == 0
    ensures buffer[16..] == old(buffer[16..])
  {
    var pos := 16;
    while pos > 0
      invariant 0 <= pos <= 16
      invariant forall i :: pos <= i < 16 ==> buffer[i] == 0
      invariant buffer[16..] == old(buffer[16..])
    {
      pos := pos - 1;
      buffer[pos] := 0;
    }
  }

  // ----- innerHash -----

  // The function arguments of the round macro. FIPS 180-4 writes exclusive or where these
  // have or.
  function Choice(b: Word, c: Word, d: Word): Word { (b & c) | (!b & d) }

  function Majority(b: Word, c: Word, d: Word): Word { (b & c) | (b & d) | (c & d) }

  lemma ChoiceIsCh(b: Word, c: Word, d: Word)
    ensures Choice(b, c, d) == Ch(b, c, d)
  {
    assert (b & c) | (!b & d) == (b & c) ^ (!b & d);
  }

  lemma MajorityIsMaj(b: Word, c: Word, d: Word)
    ensures Majority(b, c, d) == Maj(b, c, d)
  {
    assert (b & c) | (b & d) | (c & d) == (b & c) ^ (b & d) ^ (c & d);
  }

  // A longer schedule extends a shorter one.
  lemma {:induction false} SchedulePrefix(block: seq<Word>, m: nat, n: nat)
    requires |block| == 16 && 16 <= m <= n
    ensures Schedule(block, m) == Schedule(block, n)[..m]
    decreases n
  {
    hide NextWord;
    if m == n {
    } else {
      SchedulePrefix(block, m, n - 1);
    }
  }

  // The buffer holds the first n words of the block's schedule.
  ghost predicate ScheduleUpTo(block: seq<Word>, w: seq<Word>, n: nat) {
    |block| == 16 && |w| == 80 && 16 <= n <= 80 && w[..n] == Schedule(block, n)
  }

  lemma ScheduleNext(block: seq<Word>, n: nat)
    requires |block| == 16 && n >= 16
    ensures Schedule(block, n + 1) == Schedule(block, n) + [NextWord(Schedule(block, n))]
  {
    hide NextWord;
  }

  // The word that the code computes from a buffer that starts with the schedule so far.
  lemma StoredWord(buffer: seq<Word>, n: nat)
    requires 16 <= n < |buffer|
    ensures Rol(Xor(buffer[n - 3], buffer[n - 8], buffer[n - 14], buffer[n - 16]), 1) == NextWord(buffer[..n])
  {
    hide Xor, Rol, RotL;
    var w := buffer[..n];
    assert w[n - 3] == buffer[n - 3] && w[n - 8] == buffer[n - 8];
    assert w[n - 14] == buffer[n - 14] && w[n - 16] == buffer[n - 16];
    RolIsRotL(Xor(buffer[n - 3], buffer[n - 8], buffer[n - 14], buffer[n - 16]));
  }

  lemma RolIsRotL(x: Word)
    ensures Rol(x, 1) == RotL(x, 1)
  {
  }

  // The assignment to w[round] that opens every round from 16 on.
  method StoreScheduleWord(w: array<Word>, round: nat, ghost block: seq<Word>)
    requires w.Length == 80 && 16 <= round < 80 && ScheduleUpTo(block, w[..], round)
    modifies w
    ensures ScheduleUpTo(block, w[..], round + 1)
  {
    hide Schedule, Rol, Xor, NextWord;
    ghost var s := Schedule(block, round);
    ScheduleNext(block, round);
    assert w[..][..round] == s;
    StoredWord(w[..], round);
    w[round] := Rol(Xor(w[round - 3], w[round - 8], w[round - 14], w[round - 16]), 1);
    assert w[..][..round + 1] == s + [NextWord(s)];
  }

  // The working variables at the head of round `round` are those of the specification.
  ghost predicate VariablesAt(h: Hash, block: seq<Word>, round: nat, v: Working) {
    && |block| == 16 && round <= 80
    && v == Rounds(Working(h[0], h[1], h[2], h[3], h[4]), Schedule(block, 80), round)
  }

  // The arguments that the round loops pass to the macro are those of round t.
  lemma MacroArguments(t: nat, b: Word, c: Word, d: Word)
    requires t < 80
    ensures F(t, b, c, d) == if t < 20 then Choice(b, c, d)
                             else if 40 <= t < 60 then Majority(b, c, d)
                             else b ^ c ^ d
    ensures K(t) == if t < 20 then 0x5a827999
                    else if t < 40 then 0x6ed9eba1
                    else if t < 60 then 0x8f1bbcdc
                    else 0xca62c1d6
  {
    hide Choice, Ch, Majority, Maj;
    ChoiceIsCh(b, c, d);
    MajorityIsMaj(b, c, d);
  }

  // One round on a buffer whose word `round` is in place.
  lemma RoundStep(h: Hash, block: seq<Word>, w: seq<Word>, n: nat, round: nat, v: Working, func: Word, val: Word)
    requires ScheduleUpTo(block, w, n) && round < n && VariablesAt(h, block, round, v)
    requires func == F(round, v.b, v.c, v.d) && val == K(round)
    ensures VariablesAt(h, block, round + 1, RoundWith(v, func, val, w[round]))
  {
    SchedulePrefix(block, n, 80);
    assert w[round] == w[..n][round] == Schedule(block, 80)[..n][round];
  }

  // The macro that carries out one round.
  method Sha1Macro(a: Word, b: Word, c: Word, d: Word, e: Word, func: Word, val: Word, word: Word)
    returns (a': Word, b': Word, c': Word, d': Word, e': Word)
    ensures Working(a', b', c', d', e') == RoundWith(Working(a, b, c, d, e), func, val, word)
  {
    var t := Add(Add(Add(Add(Rol(a, 5), func), e), val), word);
    e' := d;
    d' := c;
    c' := Rol(b, 30);
    b' := a;
    a' := t;
  }

  lemma InnerStart(h: Hash, w: seq<Word>)
    requires |w| == 80
    ensures ScheduleUpTo(w[..16], w, 16)
    ensures VariablesAt(h, w[..16], 0, Working(h[0], h[1], h[2], h[3], h[4]))
  {
  }

  lemma InnerEnd(h: Hash, block: seq<Word>, v: Working)
    requires VariablesAt(h, block, 80, v)
    ensures Compress(h, block) == [Add(h[0], v.a), Add(h[1], v.b), Add(h[2], v.c), Add(h[3], v.d), Add(h[4], v.e)]
  {
  }

  // The five additions that close `innerHash`.
  method AddToResult(result: array<Word>, a: Word, b: Word, c: Word, d: Word, e: Word)
    requires result.Length == 5
    modifies result
    ensures result[..] == old([Add(result[0], a), Add(result[1], b), Add(result[2], c),
                               Add(result[3], d), Add(result[4], e)])
  {
    result[0] := Add(result[0], a);
    result[1] := Add(result[1], b);
    result[2] := Add(result[2], c);
    result[3] := Add(result[3], d);
    result[4] := Add(result[4], e);
  }

  // The five round loops, one method each.

  method Rounds0To15(w: array<Word>, v: Working, ghost h: Hash, ghost block: seq<Word>) returns (v': Working)
    requires w.Length == 80 && ScheduleUpTo(block, w[..], 16) && VariablesAt(h, block, 0, v)
    ensures VariablesAt(h, block, 16, v')
  {
    var Working(a, b, c, d, e) := v;
    var round := 0;
    while round < 16
      invariant 0 <= round <= 16
      invariant VariablesAt(h, block, round, Working(a, b, c, d, e))
    {
      MacroArguments(round, b, c, d);
      RoundStep(h, block, w[..], 16, round, Working(a, b, c, d, e), Choice(b, c, d), 0x5a827999);
      a, b, c, d, e := Sha1Macro(a, b, c, d, e, Choice(b, c, d), 0x5a827999, w[round]);
      round := round + 1;
    }
    v' := Working(a, b, c, d, e);
  }

  method Rounds16To19(w: array<Word>, v: Working, ghost h: Hash, ghost block: seq<Word>) returns (v': Working)
    requires w.Length == 80 && ScheduleUpTo(block, w[..], 16) && VariablesAt(h, block, 16, v)
    modifies w
    ensures ScheduleUpTo(block, w[..], 20) && VariablesAt(h, block, 20, v')
  {
    var Working(a, b, c, d, e) := v;
    var round := 16;
    while round < 20
      invariant 16 <= round <= 20 && w.Length == 80
      invariant ScheduleUpTo(block, w[..], round)
      invariant VariablesAt(h, block, round, Working(a, b, c, d, e))
    {
      StoreScheduleWord(w, round, block);
      MacroArguments(round, b, c, d);
      RoundStep(h, block, w[..], round + 1, round, Working(a, b, c, d, e), Choice(b, c, d), 0x5a827999);
      a, b, c, d, e := Sha1Macro(a, b, c, d, e, Choice(b, c, d), 0x5a827999, w[round]);
      round := round + 1;
    }
    v' := Working(a, b, c, d, e);
  }

  method Rounds20To39(w: array<Word>, v: Working, ghost h: Hash, ghost block: seq<Word>) returns (v': Working)
    requires w.Length == 80 && ScheduleUpTo(block, w[..], 20) && VariablesAt(h, block, 20, v)
    modifies w
    ensures ScheduleUpTo(block, w[..], 40) && VariablesAt(h, block, 40, v')
  {
    var Working(a, b, c, d, e) := v;
    var round := 20;
    while round < 40
      invariant 20 <= round <= 40 && w.Length == 80
      invariant ScheduleUpTo(block, w[..], round)
      invariant VariablesAt(h, block, round, Working(a, b, c, d, e))
    {
      StoreScheduleWord(w, round, block);
      MacroArguments(round, b, c, d);
      RoundStep(h, block, w[..], round + 1, round, Working(a, b, c, d, e), b ^ c ^ d, 0x6ed9eba1);
      a, b, c, d, e := Sha1Macro(a, b, c, d, e, b ^ c ^ d, 0x6ed9eba1, w[round]);
      round := round + 1;
    }
    v' := Working(a, b, c, d, e);
  }

  method Rounds40To59(w: array<Word>, v: Working, ghost h: Hash, ghost block: seq<Word>) returns (v': Working)
    requires w.Length == 80 && ScheduleUpTo(block, w[..], 40) && VariablesAt(h, block, 40, v)
    modifies w
    ensures ScheduleUpTo(block, w[..], 60) && VariablesAt(h, block, 60, v')
  {
    var Working(a, b, c, d, e) := v;
    var round := 40;
    while round < 60
      invariant 40 <= round <= 60 && w.Length == 80
      invariant ScheduleUpTo(block, w[..], round)
      invariant VariablesAt(h, block, round, Working(a, b, c, d, e))
    {
      StoreScheduleWord(w, round, block);
      MacroArguments(round, b, c, d);
      RoundStep(h, block, w[..], round + 1, round, Working(a, b, c, d, e), Majority(b, c, d), 0x8f1bbcdc);
      a, b, c, d, e := Sha1Macro(a, b, c, d, e, Majority(b, c, d), 0x8f1bbcdc, w[round]);
      round := round + 1;
    }
    v' := Working(a, b, c, d, e);
  }

  method Rounds60To79(w: array<Word>, v: Working, ghost h: Hash, ghost block: seq<Word>) returns (v': Working)
    requires w.Length == 80 && ScheduleUpTo(block, w[..], 60) && VariablesAt(h, block, 60, v)
    modifies w
    ensures ScheduleUpTo(block, w[..], 80) && VariablesAt(h, block, 80, v')
  {
    var Working(a, b, c, d, e) := v;
    var round := 60;
    while round < 80
      invariant 60 <= round <= 80 && w.Length == 80
      invariant ScheduleUpTo(block, w[..], round)
      invariant VariablesAt(h, block, round, Working(a, b, c, d, e))
    {
      StoreScheduleWord(w, round, block);
      MacroArguments(round, b, c, d);
      RoundStep(h, block, w[..], round + 1, round, Working(a, b, c, d, e), b ^ c ^ d, 0xca62c1d6);
      a, b, c, d, e := Sha1Macro(a, b, c, d, e, b ^ c ^ d, 0xca62c1d6, w[round]);
      round := round + 1;
    }
    v' := Working(a, b, c, d, e);
  }

  method InnerHash(result: array<Word>, w: array<Word>)
    requires result.Length == 5 && w.Length == 80 && result != w
    modifies result, w
    ensures result[..] == Compress(old(result[..]), old(w[..16]))
  {
    ghost var h: Hash, block := result[..], w[..16];
    InnerStart(h, w[..]);
    var v := Working(result[0], result[1], result[2], result[3], result[4]);
    v := Rounds0To15(w, v, h, block);
    v := Rounds16To19(w, v, h, block);
    v := Rounds20To39(w, v, h, block);
    v := Rounds40To59(w, v, h, block);
    v := Rounds60To79(w, v, h, block);
    InnerEnd(h, block, v);
    AddToResult(result, v.a, v.b, v.c, v.d, v.e);
  }

  // ----- The length word -----

  // A C++ int stored in an unsigned word: its value modulo 2^32.
  function WordOfInt(n: nat): Word {
    WordAt(FourBytes(n % 0x1_0000_0000), 0)
  }

  // The length field the code leaves in w[14] and w[15].
  function LengthField(n: nat): (field: seq<Byte>)
    ensures |field| == 8
  {
    [0, 0, 0, 0] + FourBytes(8 * n % 0x1_0000_0000)
  }

  // Reducing modulo 2^32 keeps the four low digits.
  lemma DigitModulo24(n: nat)
    ensures n % 0x1_0000_0000 / 0x100_0000 % 256 == n / 0x100_0000 % 256
  {
  }

  lemma DigitModulo16(n: nat)
    ensures n % 0x1_0000_0000 / 0x1_0000 % 256 == n / 0x1_0000 % 256
  {
    var q, r := n / 0x1_0000_0000, n % 0x1_0000_0000;
    assert n / 0x1_0000 == 256 * (256 * q) + r / 0x1_0000;
    AddMultiple(256 * q, r / 0x1_0000);
  }

  lemma AddMultiple(q: nat, r: nat)
    ensures (256 * q + r) % 256 == r % 256
  {
  }

  lemma DigitModulo8(n: nat)
    ensures n % 0x1_0000_0000 / 0x100 % 256 == n / 0x100 % 256
  {
  }

  lemma DigitModulo0(n: nat)
    ensures n % 0x1_0000_0000 / 1 % 256 == n / 1 % 256
  {
  }

  lemma DigitsModulo(n: nat)
    ensures FourBytes(n % 0x1_0000_0000) == FourBytes(n)
  {
    DigitModulo24(n);
    DigitModulo16(n);
    DigitModulo8(n);
    DigitModulo0(n);
  }

  // The padded message the code hashes.
  function Padded(message: seq<Byte>): (padded: seq<Byte>)
    ensures |padded| % 64 == 0 && message <= padded
  {
    PadWith(message, LengthField(|message|))
  }

  lemma DigitIsZero(n: nat, weight: nat)
    requires weight > 0
    ensures Digit(n, weight) == 0 <==> n / weight % 256 == 0
  {
  }

  // The field is the standard's 64-bit length exactly for messages below 2^29 bytes.
  lemma LengthFieldIsExact(n: nat)
    requires n < 0x8000_0000
    ensures LengthField(n) == EightBytes(8 * n) <==> n < 0x2000_0000
  {
    var high := 8 * n / 0x1_0000_0000;
    assert high < 4 && (high == 0 <==> n < 0x2000_0000);
    DigitsModulo(8 * n);
    DigitIsZero(high, 0x100_0000);
    DigitIsZero(high, 0x1_0000);
    DigitIsZero(high, 0x100);
    DigitIsZero(high, 1);
    assert LengthField(n)[..4] == [0, 0, 0, 0] && LengthField(n)[4..] == FourBytes(8 * n);
    assert EightBytes(8 * n)[..4] == FourBytes(high) && EightBytes(8 * n)[4..] == FourBytes(8 * n);
    assert LengthField(n) == LengthField(n)[..4] + LengthField(n)[4..];
    if n < 0x2000_0000 {
      assert FourBytes(high) == [0, 0, 0, 0];
    } else {
      assert FourBytes(high)[3] != 0;
    }
  }

  // The padded message the code hashes is the standard's exactly below 2^29 bytes.
  lemma PaddingIsExact(message: seq<Byte>)
    requires |message| < 0x8000_0000
    ensures Padded(message) == Pad(message) <==> |message| < 0x2000_0000
  {
    var n := |message|;
    LengthFieldIsExact(n);
    var p, p' := Padded(message), Pad(message);
    assert p[|p| - 8..] == LengthField(n);
    assert p'[|p'| - 8..] == EightBytes(8 * n);
  }

  // ----- Blocks -----

  method LoadBlock(w: array<Word>, sarray: seq<Byte>, start: nat) returns (currentBlock: nat)
    requires w.Length == 80 && start + 64 <= |sarray|
    modifies w
    ensures currentBlock == start + 64
    ensures w[..16] == BlockWords(sarray[start..start + 64])
  {
    var endCurrentBlock := start + 64;
    currentBlock := start;
    var roundPos := 0;
    while currentBlock < endCurrentBlock
      invariant 0 <= roundPos <= 16 && currentBlock == start + 4 * roundPos
      invariant forall k :: 0 <= k < roundPos ==> w[k] == WordAt(sarray[start..start + 64], k)
    {
      w[roundPos] := (sarray[currentBlock + 3] as Word)
                     | ((sarray[currentBlock + 2] as Word) << 8)
                     | ((sarray[currentBlock + 1] as Word) << 16)
                     | ((sarray[currentBlock] as Word) << 24);
      roundPos := roundPos + 1;
      currentBlock := currentBlock + 4;
    }
  }

  // A byte shifted to place i of a word, that is, by (3 - i) << 3 bits.
  function Placed(x: Byte, i: nat): Word
    requires i < 4
  {
    if i == 0 then (x as Word) << 24
    else if i == 1 then (x as Word) << 16
    else if i == 2 then (x as Word) << 8
    else x as Word
  }

  // Or-ing a byte into its place in a word whose byte there is zero stores the byte.
  lemma OrStoresByte0(block: seq<Byte>, k: nat, x: Byte)
    requires |block| == 64 && k < 16 && block[4 * k] == 0
    ensures WordAt(block, k) | Placed(x, 0) == WordAt(block[4 * k := x], k)
  {
  }

  lemma OrStoresByte1(block: seq<Byte>, k: nat, x: Byte)
    requires |block| == 64 && k < 16 && block[4 * k + 1] == 0
    ensures WordAt(block, k) | Placed(x, 1) == WordAt(block[4 * k + 1 := x], k)
  {
  }

  lemma OrStoresByte2(block: seq<Byte>, k: nat, x: Byte)
    requires |block| == 64 && k < 16 && block[4 * k + 2] == 0
    ensures WordAt(block, k) | Placed(x, 2) == WordAt(block[4 * k + 2 := x], k)
  {
  }

  lemma OrStoresByte3(block: seq<Byte>, k: nat, x: Byte)
    requires |block| == 64 && k < 16 && block[4 * k + 3] == 0
    ensures WordAt(block, k) | Placed(x, 3) == WordAt(block[4 * k + 3 := x], k)
  {
  }

  lemma OrStoresByte(block: seq<Byte>, k: nat, i: nat, x: Byte)
    requires |block| == 64 && k < 16 && i < 4 && block[4 * k + i] == 0
    ensures WordAt(block, k) | Placed(x, i) == WordAt(block[4 * k + i := x], k)
  {
    hide WordAt, Placed;
    if i == 0 {
      OrStoresByte0(block, k, x);
    } else if i == 1 {
      OrStoresByte1(block, k, x);
    } else if i == 2 {
      OrStoresByte2(block, k, x);
    } else {
      OrStoresByte3(block, k, x);
    }
  }

  lemma OtherWords(block: seq<Byte>, k: nat, i: nat, x: Byte)
    requires |block| == 64 && k < 16 && i < 4
    ensures forall j :: 0 <= j < 16 && j != k ==> WordAt(block[4 * k + i := x], j) == WordAt(block, j)
  {
  }

  lemma OrIntoBlock(block: seq<Byte>, n: nat, x: Byte, words: seq<Word>)
    requires |block| == 64 && n < 64 && block[n] == 0 && words == BlockWords(block)
    ensures words[n / 4 := words[n / 4] | Placed(x, n % 4)] == BlockWords(block[n := x])
  {
    hide WordAt, Placed;
    OrStoresByte(block, n / 4, n % 4, x);
    OtherWords(block, n / 4, n % 4, x);
    assert 4 * (n / 4) + n % 4 == n;
    var word := WordAt(block[n := x], n / 4);
    assert words[n / 4] == WordAt(block, n / 4);
    assert words[n / 4 := word] == BlockWords(block[n := x]);
  }

  // One iteration of the loop that copies the last bytes.
  method StoreByte(w: array<Word>, n: nat, x: Byte, ghost block: seq<Byte>)
    requires w.Length == 80 && |block| == 64 && n < 64 && block[n] == 0
    requires w[..16] == BlockWords(block)
    modifies w
    ensures w[..16] == BlockWords(block[n := x])
  {
    OrIntoBlock(block, n, x, w[..16]);
    var word := w[n / 4] | Placed(x, n % 4);
    ghost var before := w[..16];
    w[n / 4] := word;
    assert w[..16] == before[n / 4 := word];
  }

  // The last bytes of the message, the byte 0x80, and zeros to the end of the block.
  function TailBlock(rest: seq<Byte>): (block: seq<Byte>)
    requires |rest| < 64
    ensures |block| == 64
  {
    rest + [0x80] + Zeros(63 - |rest|)
  }

  lemma ZeroWords(w: seq<Word>)
    requires |w| == 16 && forall i :: 0 <= i < 16 ==> w[i] == 0
    ensures w == BlockWords(Zeros(64))
  {
  }

  method BuildTail(w: array<Word>, sarray: seq<Byte>, currentBlock: nat)
    requires w.Length == 80 && currentBlock <= |sarray| < currentBlock + 64
    modifies w
    ensures w[..16] == BlockWords(TailBlock(sarray[currentBlock..]))
  {
    hide WordAt;
    var endCurrentBlock := |sarray| - currentBlock;
    ghost var rest := sarray[currentBlock..];
    ClearWBuffer(w);
    ZeroWords(w[..16]);
    var lastBlockBytes := 0;
    assert Zeros(64) == rest[..0] + Zeros(64 - 0);
    while lastBlockBytes < endCurrentBlock
      invariant 0 <= lastBlockBytes <= endCurrentBlock
      invariant w[..16] == BlockWords(rest[..lastBlockBytes] + Zeros(64 - lastBlockBytes))
    {
      ghost var block := rest[..lastBlockBytes] + Zeros(64 - lastBlockBytes);
      StoreByte(w, lastBlockBytes, sarray[lastBlockBytes + currentBlock], block);
      lastBlockBytes := lastBlockBytes + 1;
      assert block[lastBlockBytes - 1 := rest[lastBlockBytes - 1]]
          == rest[..lastBlockBytes] + Zeros(64 - lastBlockBytes);
    }
    ghost var block := rest + Zeros(64 - lastBlockBytes);
    assert block == rest[..lastBlockBytes] + Zeros(64 - lastBlockBytes);
    StoreByte(w, lastBlockBytes, 0x80, block);
    assert block[lastBlockBytes := 0x80] == TailBlock(rest);
  }

  // The blocks of the message the code hashes: whole blocks of the message, then the tail.
  lemma FullBlock(message: seq<Byte>, i: nat)
    requires 64 * i + 64 <= |message|
    ensures Block(Padded(message), i) == message[64 * i..64 * i + 64]
  {
  }

  lemma ZeroCountOfTail(i: nat, r: nat)
    requires r < 64
    ensures ZeroCount(64 * i + r) == if r < 56 then 55 - r else 119 - r
  {
  }

  // With 56 or more bytes left the tail fills one block and the length the next.
  lemma TwoTailBlocks(message: seq<Byte>, i: nat)
    requires 64 * i + 56 <= |message| < 64 * i + 64
    ensures |Padded(message)| == 64 * i + 128
    ensures Block(Padded(message), i) == TailBlock(message[64 * i..])
    ensures Block(Padded(message), i + 1) == Zeros(56) + LengthField(|message|)
  {
    var field := LengthField(|message|);
    var front, rest := message[..64 * i], message[64 * i..];
    ZeroCountOfTail(i, |rest|);
    assert Zeros(119 - |rest|) == Zeros(63 - |rest|) + Zeros(56);
    Parts(Padded(message), front, TailBlock(rest), Zeros(56) + field);
  }

  // With fewer bytes left the length shares the block with the tail.
  lemma OneTailBlock(message: seq<Byte>, i: nat)
    requires 64 * i <= |message| < 64 * i + 56
    ensures |Padded(message)| == 64 * i + 64
    ensures Block(Padded(message), i) == TailBlock(message[64 * i..])[..56] + LengthField(|message|)
  {
    var field := LengthField(|message|);
    var front, rest := message[..64 * i], message[64 * i..];
    ZeroCountOfTail(i, |rest|);
    assert TailBlock(rest)[..56] == rest + [0x80] + Zeros(55 - |rest|);
    Parts(Padded(message), front, TailBlock(rest)[..56] + field, []);
  }

  lemma Parts(whole: seq<Byte>, front: seq<Byte>, middle: seq<Byte>, end: seq<Byte>)
    requires whole == front + middle + end
    ensures whole[|front|..|front| + |middle|] == middle && whole[|front| + |middle|..] == end
  {
  }

  // Storing the length word turns a block that ends in eight zero bytes into one that ends in
  // the length field.
  lemma StoreLength(block: seq<Byte>, n: nat)
    requires |block| == 64 && forall i :: 56 <= i < 64 ==> block[i] == 0
    ensures BlockWords(block)[15 := WordOfInt(8 * n)] == BlockWords(block[..56] + LengthField(n))
  {
  }

  // ----- calcSha1 -----

  lemma NoBlocks(padded: seq<Byte>)
    ensures HashAfter(padded, 0) == INITIAL_HASH
  {
  }

  // `innerHash` on block i of the padded message.
  method HashBlock(result: array<Word>, w: array<Word>, ghost padded: seq<Byte>, ghost i: nat)
    requires result.Length == 5 && w.Length == 80 && result != w
    requires 64 * i + 64 <= |padded| && result[..] == HashAfter(padded, i)
    requires w[..16] == BlockWords(Block(padded, i))
    modifies result, w
    ensures result[..] == HashAfter(padded, i + 1)
  {
    InnerHash(result, w);
  }

  // The loop over the complete blocks.
  method HashFullBlocks(result: array<Word>, w: array<Word>, src: seq<Byte>)
    returns (currentBlock: nat, ghost i: nat)
    requires result.Length == 5 && w.Length == 80 && result != w && result[..] == INITIAL_HASH
    modifies result, w
    ensures currentBlock == 64 * i && currentBlock <= |src| < currentBlock + 64
    ensures result[..] == HashAfter(Padded(src), i)
  {
    hide HashAfter;
    NoBlocks(Padded(src));
    var endOfFullBlocks := |src| - 64;
    currentBlock, i := 0, 0;
    while currentBlock <= endOfFullBlocks
      invariant currentBlock == 64 * i && currentBlock <= |src|
      invariant result[..] == HashAfter(Padded(src), i)
    {
      FullBlock(src, i);
      currentBlock := LoadBlock(w, src, currentBlock);
      HashBlock(result, w, Padded(src), i);
      i := i + 1;
    }
  }

  // The one or two blocks after them.
  method HashTail(result: array<Word>, w: array<Word>, src: seq<Byte>, currentBlock: nat, ghost n: nat)
    requires result.Length == 5 && w.Length == 80 && result != w
    requires currentBlock == 64 * n && currentBlock <= |src| < currentBlock + 64
    requires result[..] == HashAfter(Padded(src), n)
    modifies result, w
    ensures result[..] == HashAfter(Padded(src), |Padded(src)| / 64)
  {
    hide HashAfter;
    ghost var i := n;
    var endCurrentBlock := |src| - currentBlock;
    BuildTail(w, src, currentBlock);
    ghost var last := TailBlock(src[currentBlock..]);
    if endCurrentBlock >= 56 {
      TwoTailBlocks(src, i);
      HashBlock(result, w, Padded(src), i);
      ClearWBuffer(w);
      ZeroWords(w[..16]);
      i, last := i + 1, Zeros(64);
      assert last[..56] == Zeros(56);
    } else {
      OneTailBlock(src, i);
    }
    StoreLengthWord(w, last, |src|);
    HashBlock(result, w, Padded(src), i);
  }

  method StoreLengthWord(w: array<Word>, ghost block: seq<Byte>, bytelength: nat)
    requires w.Length == 80 && |block| == 64 && w[..16] == BlockWords(block)
    requires forall i :: 56 <= i < 64 ==> block[i] == 0
    modifies w
    ensures w[..16] == BlockWords(block[..56] + LengthField(bytelength))
  {
    StoreLength(block, bytelength);
    ghost var before := w[..16];
    w[15] := WordOfInt(8 * bytelength);
    assert w[..16] == before[15 := WordOfInt(8 * bytelength)];
  }

  // A byte of the digest: the low byte of a word shifted right by `places << 3` bits.
  function ShiftedByte(x: Word, places: nat): Byte
    requires places < 4
  {
    var shifted := if places == 0 then x else if places == 1 then x >> 8 else if places == 2 then x >> 16 else x >> 24;
    (shifted & 0xff) as Byte
  }

  lemma ShiftedByteIsByteOfWord(x: Word, i: nat)
    requires i < 4
    ensures ShiftedByte(x, 3 - i) == ByteOfWord(x, i)
  {
  }

  // The loop that stores the words of the result as bytes.
  method StoreDigest(result: array<Word>, hash: array<Byte>)
    requires result.Length == 5 && hash.Length >= 20
    modifies hash
    ensures forall k :: 0 <= k < 20 ==> hash[k] == ByteOfWord(result[k / 4], k % 4)
    ensures hash[20..] == old(hash[20..])
  {
    hide ShiftedByte, ByteOfWord;
    var hashByte := 20;
    while hashByte > 0
      invariant 0 <= hashByte <= 20 && hash[20..] == old(hash[20..])
      invariant forall k :: hashByte <= k < 20 ==> hash[k] == ByteOfWord(result[k / 4], k % 4)
    {
      hashByte := hashByte - 1;
      assert (3 - hashByte) % 4 == 3 - hashByte % 4;
      ShiftedByteIsByteOfWord(result[hashByte / 4], hashByte % 4);
      hash[hashByte] := ShiftedByte(result[hashByte / 4], (3 - hashByte) % 4);
    }
  }

  lemma DigestBytes(padded: seq<Byte>, h: seq<Word>, digest: seq<Byte>)
    requires |padded| % 64 == 0 && h == HashAfter(padded, |padded| / 64)
    requires |digest| == 20 && forall k :: 0 <= k < 20 ==> digest[k] == ByteOfWord(h[k / 4], k % 4)
    ensures digest == DigestOfPadded(padded)
  {
  }

  method CalcSha1(src: seq<Byte>, hash: array<Byte>)
    requires |src| < 0x8000_0000 && hash.Length >= 20
    modifies hash
    ensures hash[..20] == DigestOfPadded(Padded(src))
    ensures |src| < 0x2000_0000 ==> hash[..20] == Sha1(src)
    ensures hash[20..] == old(hash[20..])
  {
    hide HashAfter, Padded, Pad, DigestOfPadded, ByteOfWord;
    var result := new Word[5] [0x67452301, 0xefcdab89, 0x98badcfe, 0x10325476, 0xc3d2e1f0];
    var w := new Word[80];
    var currentBlock, n := HashFullBlocks(result, w, src);
    HashTail(result, w, src, currentBlock, n);
    StoreDigest(result, hash);
    DigestBytes(Padded(src), result[..], hash[..20]);
    PaddingIsExact(src);
  }

  // ----- Properties -----

  // The intermediate hash values of a padded message: each is the compression of the one before it
  // with the next 64 bytes.
  ghost predicate Chain(states: seq<Hash>, padded: seq<Byte>)
    requires |padded| % 64 == 0
  {
    && |states| == |padded| / 64 + 1
    && states[0] == [0x67452301, 0xefcdab89, 0x98badcfe, 0x10325476, 0xc3d2e1f0]
    && forall i :: 0 <= i < |padded| / 64 ==>
         states[i + 1] == Compress(states[i], BlockWords(padded[64 * i..64 * i + 64]))
  }

  // There is one such sequence, and the bytes of its last value are the digest.
  lemma DigestOfChain(padded: seq<Byte>)
    requires |padded| % 64 == 0
    ensures exists states :: Chain(states, padded)
    ensures forall states, k :: Chain(states, padded) && 0 <= k < 20 ==>
              DigestOfPadded(padded)[k] == ByteOfWord(states[|padded| / 64][k / 4], k % 4)
  {
    hide Compress, ByteOfWord;
    var n := |padded| / 64;
    var values: seq<Hash> := seq(n + 1, i requires 0 <= i <= n => HashAfter(padded, i));
    assert Chain(values, padded);
    forall states | Chain(states, padded)
      ensures states[n] == HashAfter(padded, n)
    {
      ChainIsHashAfter(states, padded, n);
    }
  }

  lemma {:induction false} ChainIsHashAfter(states: seq<Hash>, padded: seq<Byte>, i: nat)
    requires |padded| % 64 == 0 && Chain(states, padded) && i <= |padded| / 64
    ensures states[i] == HashAfter(padded, i)
  {
    hide Compress;
    if i == 0 {
    } else {
      ChainIsHashAfter(states, padded, i - 1);
    }
  }

  // For every length, the field of the code is that of the length modulo 2^32 bits.
  lemma LengthFieldWraps(n: nat)
    ensures LengthField(n) == EightBytes(8 * n % 0x1_0000_0000)
  {
    var bits := 8 * n % 0x1_0000_0000;
    assert bits / 0x1_0000_0000 == 0;
    DigitIsZero(0, 0x100_0000);
    DigitIsZero(0, 0x1_0000);
    DigitIsZero(0, 0x100);
    DigitIsZero(0, 1);
    hide Digit;
  }

  // For every message: the padding is the byte 0x80, zeros and the length in bits, in as few whole blocks
  // as hold them.
  lemma PaddingParts(message: seq<Byte>)
    ensures var p, n := Pad(message), |message|;
            && |p| == 64 * ((n + 8) / 64 + 1) && p[..n] == message && p[n] == 0x80
            && (forall i :: n < i < |p| - 8 ==> p[i] == 0)
            && p[|p| - 8..] == EightBytes(8 * n)
  {
    hide EightBytes;
  }
}
