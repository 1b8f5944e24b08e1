/** `base64_encode` and `base64_decode`, against section 4 of RFC 4648. C++ `unsigned char` and
    `int` values are integers here: a right shift by k is a division by 2^k, a mask of k low bits
    a remainder modulo 2^k, a left shift by k a multiplication by 2^k, and an or of fields that
    do not overlap a sum. */
module Base64 {
  import Text

  type Octet = x: int | 0 <= x < 256
  type Sextet = x: int | 0 <= x < 64

  // ----- The two tables -----

  // base64_table: Table 1 of RFC 4648.
  function Letter(v: Sextet): char {
    if v < 26 then ('A' as int + v) as char
    else if v < 52 then ('a' as int + (v - 26)) as char
    else if v < 62 then ('0' as int + (v - 52)) as char
    else if v == 62 then '+'
    else '/'
  }

  // B64index: besides the alphabet it gives 62 to `-` and `.`, 63 to `,` and `_`, and 0 to every
  // other character.
  function B64Index(c: char): Sextet {
    if 'A' <= c <= 'Z' then c as int - 'A' as int
    else if 'a' <= c <= 'z' then c as int - 'a' as int + 26
    else if '0' <= c <= '9' then c as int - '0' as int + 52
    else if c == '+' || c == '-' || c == '.' then 62
    else if c == '/' || c == ',' || c == '_' then 63
    else 0
  }

  predicate InAlphabet(c: char) {
    'A' <= c <= 'Z' || 'a' <= c <= 'z' || '0' <= c <= '9' || c == '+' || c == '/'
  }

  lemma IndexOfLetter(v: Sextet)
    ensures InAlphabet(Letter(v)) && B64Index(Letter(v)) == v
  {
  }

  lemma LetterOfIndex(c: char)
    requires InAlphabet(c)
    ensures Letter(B64Index(c)) == c
  {
  }

  // Table 1 of RFC 4648.
  const ALPHABET := "ABCDEFGHIJKLMNOPQRSTUVWXYZ" + "abcdefghijklmnopqrstuvwxyz" + "0123456789" + "+/"

  // Both tables agree with it.
  lemma TablesAreTheAlphabet(v: Sextet)
    ensures |ALPHABET| == 64 && Letter(v) == ALPHABET[v] && B64Index(ALPHABET[v]) == v
  {
    IndexOfLetter(v);
    if v < 26 {
      Text.CapitalLetter(v);
    } else if v < 52 {
      Text.SmallLetter(v - 26);
    } else if v < 62 {
      Text.DecimalDigit(v - 52);
    }
  }

  lemma AlphabetIs(c: char)
    ensures InAlphabet(c) <==> c in ALPHABET
  {
    if InAlphabet(c) {
      LetterOfIndex(c);
      TablesAreTheAlphabet(B64Index(c));
    }
    if v: nat :| v < |ALPHABET| && ALPHABET[v] == c {
      TablesAreTheAlphabet(v);
      IndexOfLetter(v);
    }
  }

  // What the decode table makes of all other characters.
  lemma OtherCharacters(c: char)
    requires c !in ALPHABET
    ensures B64Index(c) == if c == '-' || c == '.' then 62 else if c == ',' || c == '_' then 63 else 0
  {
    AlphabetIs(c);
  }

  // ----- Specification: section 4 of RFC 4648 -----

  // Sextet k of a 24-bit group, the most significant first.
  function SextetOf(group: nat, k: nat): Sextet
    requires group < 0x100_0000 && k < 4
  {
    if k == 0 then group / 0x4_0000
    else if k == 1 then group / 0x1000 % 64
    else if k == 2 then group / 64 % 64
    else group % 64
  }

  function OctetOf(group: nat, k: nat): Octet
    requires group < 0x100_0000 && k < 3
  {
    if k == 0 then group / 0x1_0000 else if k == 1 then group / 0x100 % 256 else group % 256
  }

  function GroupOfOctets(a: Octet, b: Octet, c: Octet): (group: nat)
    ensures group < 0x100_0000
  {
    a * 0x1_0000 + b * 0x100 + c
  }

  function GroupOfSextets(a: Sextet, b: Sextet, c: Sextet, d: Sextet): (group: nat)
    ensures group < 0x100_0000
  {
    a * 0x4_0000 + b * 0x1000 + c * 64 + d
  }

  function EncodeGroup(group: nat, letters: nat): string
    requires group < 0x100_0000 && 2 <= letters <= 4
  {
    [Letter(SextetOf(group, 0)), Letter(SextetOf(group, 1)),
     if letters > 2 then Letter(SextetOf(group, 2)) else '=',
     if letters > 3 then Letter(SextetOf(group, 3)) else '=']
  }

  // Octets are taken three at a time; zero bits fill the last group up.
  function Encode(src: seq<Octet>): string {
    if |src| == 0 then ""
    else if |src| == 1 then EncodeGroup(GroupOfOctets(src[0], 0, 0), 2)
    else if |src| == 2 then EncodeGroup(GroupOfOctets(src[0], src[1], 0), 3)
    else EncodeGroup(GroupOfOctets(src[0], src[1], src[2]), 4) + Encode(src[3..])
  }

  // The group of the first four characters; those past the end count as zero bits.
  function GroupOfText(text: string): (group: nat)
    ensures group < 0x100_0000
  {
    GroupOfSextets(if |text| > 0 then B64Index(text[0]) else 0, if |text| > 1 then B64Index(text[1]) else 0,
                   if |text| > 2 then B64Index(text[2]) else 0, if |text| > 3 then B64Index(text[3]) else 0)
  }

  // How many octets the last group of a text holds: a group that is short, or ends in `=`, has
  // one, and a second if there is a third character other than `=`.
  function LastGroupOctets(text: string): nat
    requires 1 <= |text| <= 4
  {
    if |text| == 4 && text[3] != '=' then 3 else if |text| > 2 && text[2] != '=' then 2 else 1
  }

  function OctetsOf(group: nat, n: nat): seq<Octet>
    requires group < 0x100_0000 && 1 <= n <= 3
  {
    [OctetOf(group, 0), OctetOf(group, 1), OctetOf(group, 2)][..n]
  }

  // What `base64_decode` computes on any text, one group of four characters at a time.
  function Decode(text: string): seq<Octet> {
    if |text| == 0 then []
    else if |text| <= 4 then OctetsOf(GroupOfText(text), LastGroupOctets(text))
    else OctetsOf(GroupOfText(text), 3) + Decode(text[4..])
  }

  lemma {:induction false} EncodedLength(src: seq<Octet>)
    ensures |Encode(src)| == 4 * ((|src| + 2) / 3)
  {
    if |src| < 3 {
    } else {
      EncodedLength(src[3..]);
      ThreeFewer(|src|);
    }
  }

  lemma ThreeFewer(n: nat)
    requires n >= 3
    ensures (n + 2) / 3 == (n - 3 + 2) / 3 + 1
  {
  }

  // ----- Round trips -----

  // A Base64 text that section 4 can produce: whole groups of alphabet letters, the last one
  // possibly padded and its unused bits zero.
  predicate Canonical(text: string) {
    if |text| == 0 then true
    else if |text| < 4 then false
    else if !(InAlphabet(text[0]) && InAlphabet(text[1])) then false
    else if InAlphabet(text[2]) && InAlphabet(text[3]) then Canonical(text[4..])
    else
      && |text| == 4 && text[3] == '='
      && if text[2] == '=' then B64Index(text[1]) % 16 == 0
         else InAlphabet(text[2]) && B64Index(text[2]) % 4 == 0
  }

  // Quotients and remainders by the units of a group.
  lemma Quotient64(n: nat, q: nat, r: nat)
    requires r < 64 && n == 64 * q + r
    ensures n / 64 == q && n % 64 == r
  {
  }

  lemma Quotient256(n: nat, q: nat, r: nat)
    requires r < 0x100 && n == 0x100 * q + r
    ensures n / 0x100 == q && n % 0x100 == r
  {
  }

  lemma Quotient4096(n: nat, q: nat, r: nat)
    requires r < 0x1000 && n == 0x1000 * q + r
    ensures n / 0x1000 == q && n % 0x1000 == r
  {
  }

  lemma Quotient65536(n: nat, q: nat, r: nat)
    requires r < 0x1_0000 && n == 0x1_0000 * q + r
    ensures n / 0x1_0000 == q && n % 0x1_0000 == r
  {
  }

  lemma Quotient262144(n: nat, q: nat, r: nat)
    requires r < 0x4_0000 && n == 0x4_0000 * q + r
    ensures n / 0x4_0000 == q && n % 0x4_0000 == r
  {
  }

  lemma OctetsOfGroup(a: Octet, b: Octet, c: Octet)
    ensures OctetOf(GroupOfOctets(a, b, c), 0) == a
    ensures OctetOf(GroupOfOctets(a, b, c), 1) == b
    ensures OctetOf(GroupOfOctets(a, b, c), 2) == c
  {
    var g := GroupOfOctets(a, b, c);
    Quotient65536(g, a, 0x100 * b + c);
    Quotient256(g, 0x100 * a + b, c);
    Quotient256(0x100 * a + b, a, b);
  }

  lemma SextetsOfGroup(a: Sextet, b: Sextet, c: Sextet, d: Sextet)
    ensures SextetOf(GroupOfSextets(a, b, c, d), 0) == a
    ensures SextetOf(GroupOfSextets(a, b, c, d), 1) == b
    ensures SextetOf(GroupOfSextets(a, b, c, d), 2) == c
    ensures SextetOf(GroupOfSextets(a, b, c, d), 3) == d
  {
    var g := GroupOfSextets(a, b, c, d);
    Quotient262144(g, a, 0x1000 * b + 64 * c + d);
    Quotient4096(g, 64 * a + b, 64 * c + d);
    Quotient64(64 * a + b, a, b);
    Quotient64(g, 0x1000 * a + 64 * b + c, d);
    Quotient64(0x1000 * a + 64 * b + c, 64 * a + b, c);
  }

  // Either way of cutting up a group determines it.
  lemma GroupFromSextets(group: nat)
    requires group < 0x100_0000
    ensures GroupOfSextets(SextetOf(group, 0), SextetOf(group, 1), SextetOf(group, 2), SextetOf(group, 3)) == group
  {
    var x, d := group / 64, group % 64;
    var y, c := x / 64, x % 64;
    var a, b := y / 64, y % 64;
    Quotient4096(group, y, 64 * c + d);
    Quotient262144(group, a, 0x1000 * b + 64 * c + d);
  }

  lemma GroupFromOctets(group: nat)
    requires group < 0x100_0000
    ensures GroupOfOctets(OctetOf(group, 0), OctetOf(group, 1), OctetOf(group, 2)) == group
  {
  }

  // Three octets whose 24 bits are those of four sextets, and their letters.
  lemma LettersOf(a: Octet, b: Octet, c: Octet, v0: Sextet, v1: Sextet, v2: Sextet, v3: Sextet)
    requires GroupOfOctets(a, b, c) == GroupOfSextets(v0, v1, v2, v3)
    ensures Encode([a, b, c]) == [Letter(v0), Letter(v1), Letter(v2), Letter(v3)]
    ensures c == 0 ==> Encode([a, b]) == [Letter(v0), Letter(v1), Letter(v2), '=']
    ensures b == c == 0 ==> Encode([a]) == [Letter(v0), Letter(v1), '=', '=']
  {
    SextetsOfGroup(v0, v1, v2, v3);
    hide Letter, SextetOf, GroupOfOctets, GroupOfSextets;
    assert [a, b, c][3..] == [] && Encode([]) == "";
  }

  // A group of letters is read back as the octets that were put in.
  lemma GroupRoundTrip(a: Octet, b: Octet, c: Octet, letters: nat)
    requires 2 <= letters <= 4 && (letters < 4 ==> c == 0) && (letters < 3 ==> b == 0)
    ensures OctetsOf(GroupOfText(EncodeGroup(GroupOfOctets(a, b, c), letters)), letters - 1) == [a, b, c][..letters - 1]
    ensures LastGroupOctets(EncodeGroup(GroupOfOctets(a, b, c), letters)) == letters - 1
  {
    var g := GroupOfOctets(a, b, c);
    var text := EncodeGroup(g, letters);
    IndexOfLetter(SextetOf(g, 0));
    IndexOfLetter(SextetOf(g, 1));
    IndexOfLetter(SextetOf(g, 2));
    IndexOfLetter(SextetOf(g, 3));
    LowSextetsOfTwo(a, b);
    LowSextetsOfOne(a);
    assert GroupOfText(text) == GroupOfSextets(SextetOf(g, 0), SextetOf(g, 1), SextetOf(g, 2), SextetOf(g, 3));
    GroupFromSextets(g);
    OctetsOfGroup(a, b, c);
  }

  // The sextets that only hold filled-up bits are zero, and the last one before them ends in
  // zero bits.
  lemma LowSextetsOfTwo(a: Octet, b: Octet)
    ensures SextetOf(GroupOfOctets(a, b, 0), 2) % 4 == 0 && SextetOf(GroupOfOctets(a, b, 0), 3) == 0
  {
    var q, r: int := b / 16, b % 16;
    Quotient64(GroupOfOctets(a, b, 0), a * 0x400 + b * 4, 0);
    Quotient64(a * 0x400 + b * 4, a * 16 + q, r * 4);
  }

  lemma LowSextetsOfOne(a: Octet)
    ensures SextetOf(GroupOfOctets(a, 0, 0), 1) % 16 == 0 && SextetOf(GroupOfOctets(a, 0, 0), 2) == 0
  {
    var q, r: int := a / 4, a % 4;
    Quotient4096(GroupOfOctets(a, 0, 0), a * 16, 0);
    Quotient64(a * 16, q, r * 16);
    Quotient64(GroupOfOctets(a, 0, 0), a * 0x400, 0);
    Quotient64(a * 0x400, a * 16, 0);
  }

  lemma {:induction false} DecodeEncode(src: seq<Octet>)
    ensures Decode(Encode(src)) == src
  {
    if |src| == 0 {
    } else if |src| == 1 {
      GroupRoundTrip(src[0], 0, 0, 2);
    } else if |src| == 2 {
      GroupRoundTrip(src[0], src[1], 0, 3);
    } else {
      GroupRoundTrip(src[0], src[1], src[2], 4);
      var head := EncodeGroup(GroupOfOctets(src[0], src[1], src[2]), 4);
      var text := head + Encode(src[3..]);
      if |src| > 3 {
        assert text[4..] == Encode(src[3..]);
        assert GroupOfText(text) == GroupOfText(head);
        DecodeEncode(src[3..]);
      }
    }
  }

  // Everything the encoder produces is canonical...
  lemma {:induction false} EncodeIsCanonical(src: seq<Octet>)
    ensures Canonical(Encode(src))
  {
    if |src| == 0 {
    } else {
      var a, b, c := src[0], if |src| > 1 then src[1] else 0, if |src| > 2 then src[2] else 0;
      var g := GroupOfOctets(a, b, c);
      IndexOfLetter(SextetOf(g, 0));
      IndexOfLetter(SextetOf(g, 1));
      IndexOfLetter(SextetOf(g, 2));
      IndexOfLetter(SextetOf(g, 3));
      LowSextetsOfTwo(a, b);
      LowSextetsOfOne(a);
      if |src| >= 3 {
        EncodeIsCanonical(src[3..]);
        assert Encode(src)[4..] == Encode(src[3..]);
      }
    }
  }

  // A group whose unused bits are zero is encoded back to the letters it came from.
  lemma EncodeDecodedGroup(group: nat, n: nat)
    requires group < 0x100_0000 && 1 <= n <= 3
    requires (n < 3 ==> OctetOf(group, 2) == 0) && (n < 2 ==> OctetOf(group, 1) == 0)
    ensures Encode(OctetsOf(group, n)) == EncodeGroup(group, n + 1)
  {
    GroupFromOctets(group);
  }

  lemma UnusedBitsOfThree(v0: Sextet, v1: Sextet, v2: Sextet)
    requires v2 % 4 == 0
    ensures OctetOf(GroupOfSextets(v0, v1, v2, 0), 2) == 0
  {
    var q: int := v2 / 4;
    assert v2 == 4 * q;
    Quotient256(GroupOfSextets(v0, v1, v2, 0), v0 * 0x400 + v1 * 16 + q, 0);
  }

  lemma UnusedBitsOfTwo(v0: Sextet, v1: Sextet)
    requires v1 % 16 == 0
    ensures OctetOf(GroupOfSextets(v0, v1, 0, 0), 1) == 0 && OctetOf(GroupOfSextets(v0, v1, 0, 0), 2) == 0
  {
    var q: int := v1 / 16;
    assert v1 == 16 * q;
    Quotient256(GroupOfSextets(v0, v1, 0, 0), 0x100 * (v0 * 4 + q), 0);
    Quotient256(0x100 * (v0 * 4 + q), v0 * 4 + q, 0);
  }

  lemma CanonicalGroup(text: string)
    requires |text| == 4 && Canonical(text)
    ensures Encode(Decode(text)) == text
  {
    var v0, v1, v2, v3 := B64Index(text[0]), B64Index(text[1]), B64Index(text[2]), B64Index(text[3]);
    SextetsOfGroup(v0, v1, v2, v3);
    LetterOfIndex(text[0]);
    LetterOfIndex(text[1]);
    if text[2] == '=' {
      UnusedBitsOfTwo(v0, v1);
    } else {
      LetterOfIndex(text[2]);
      if text[3] == '=' {
        UnusedBitsOfThree(v0, v1, v2);
      } else {
        LetterOfIndex(text[3]);
      }
    }
    EncodeDecodedGroup(GroupOfText(text), LastGroupOctets(text));
  }

  // ...and the encoder restores exactly the canonical texts.
  lemma {:induction false} EncodeDecode(text: string)
    ensures Encode(Decode(text)) == text <==> Canonical(text)
  {
    EncodeIsCanonical(Decode(text));
    if Canonical(text) {
      CanonicalIsRestored(text);
    }
  }

  lemma {:induction false} CanonicalIsRestored(text: string)
    requires Canonical(text)
    ensures Encode(Decode(text)) == text
  {
    if |text| == 4 {
      CanonicalGroup(text);
    } else if |text| > 4 {
      var head, rest := text[..4], text[4..];
      CanonicalParts(text);
      DecodeParts(text);
      hide *;
      CanonicalIsRestored(rest);
      CanonicalGroup(head);
      EncodeParts(Decode(head), Decode(rest));
      assert text == head + rest;
    }
  }

  lemma CanonicalParts(text: string)
    requires Canonical(text) && |text| > 4
    ensures text[3] != '=' && Canonical(text[..4]) && Canonical(text[4..])
  {
    hide B64Index;
  }

  lemma DecodeParts(text: string)
    requires |text| > 4 && text[3] != '='
    ensures |Decode(text[..4])| == 3 && Decode(text) == Decode(text[..4]) + Decode(text[4..])
  {
    hide OctetOf, B64Index, GroupOfSextets;
    assert GroupOfText(text) == GroupOfText(text[..4]);
  }

  lemma EncodeParts(a: seq<Octet>, b: seq<Octet>)
    requires |a| == 3
    ensures Encode(a + b) == Encode(a) + Encode(b)
  {
    hide EncodeGroup, GroupOfOctets;
    assert (a + b)[3..] == b;
    assert a[3..] == [];
  }

  // The six bits of the character at position j; a text goes on with zeros.
  function SextetAt(text: string, j: nat): Sextet {
    if j < |text| then B64Index(text[j]) else 0
  }

  lemma OctetsOfSextets(a: Sextet, b: Sextet, c: Sextet, d: Sextet)
    ensures OctetOf(GroupOfSextets(a, b, c, d), 0) == 4 * a + b / 16
    ensures OctetOf(GroupOfSextets(a, b, c, d), 1) == b % 16 * 16 + c / 4
    ensures OctetOf(GroupOfSextets(a, b, c, d), 2) == c % 4 * 64 + d
  {
    var bq, br, cq, cr: int := b / 16, b % 16, c / 4, c % 4;
    assert b == 16 * bq + br && c == 4 * cq + cr;
    var x, y, z := 4 * a + bq, br * 16 + cq, cr * 64 + d;
    assert GroupOfSextets(a, b, c, d) == GroupOfOctets(x, y, z);
    OctetsOfGroup(x, y, z);
  }

  // Octet k of what a text stands for: the bits of the characters at the positions that belong to it.
  function OctetAt(text: string, k: nat): Octet {
    var g := k / 3 * 4;
    if k % 3 == 0 then 4 * SextetAt(text, g) + SextetAt(text, g + 1) / 16
    else if k % 3 == 1 then SextetAt(text, g + 1) % 16 * 16 + SextetAt(text, g + 2) / 4
    else SextetAt(text, g + 2) % 4 * 64 + SextetAt(text, g + 3)
  }

  lemma GroupAt(text: string)
    ensures GroupOfText(text)
         == GroupOfSextets(SextetAt(text, 0), SextetAt(text, 1), SextetAt(text, 2), SextetAt(text, 3))
  {
  }

  lemma OctetsAtStart(text: string)
    ensures OctetAt(text, 0) == 4 * SextetAt(text, 0) + SextetAt(text, 1) / 16
    ensures OctetAt(text, 1) == SextetAt(text, 1) % 16 * 16 + SextetAt(text, 2) / 4
    ensures OctetAt(text, 2) == SextetAt(text, 2) % 4 * 64 + SextetAt(text, 3)
  {
    hide SextetAt;
  }

  lemma FirstOctetsAt(text: string, k: nat)
    requires k < 3
    ensures OctetOf(GroupOfText(text), k) == OctetAt(text, k)
  {
    hide *;
    OctetsAtStart(text);
    GroupAt(text);
    OctetsOfSextets(SextetAt(text, 0), SextetAt(text, 1), SextetAt(text, 2), SextetAt(text, 3));
    assert k == 0 || k == 1 || k == 2;
  }

  lemma OctetAtFurther(text: string, k: nat)
    requires |text| >= 4
    ensures OctetAt(text, k + 3) == OctetAt(text[4..], k)
  {
    hide B64Index;
    var g := k / 3 * 4;
    assert (k + 3) / 3 * 4 == g + 4 && (k + 3) % 3 == k % 3;
    assert forall j: nat :: SextetAt(text[4..], j) == SextetAt(text, j + 4);
    hide SextetAt;
  }

  // Every text, well-formed or not, decodes to the octets at their positions...
  lemma {:induction false} DecodedAt(text: string, k: nat)
    requires k < |Decode(text)|
    ensures Decode(text)[k] == OctetAt(text, k)
  {
    hide OctetOf, GroupOfText, OctetAt;
    if k < 3 {
      FirstOctetsAt(text, k);
    } else {
      DecodedAt(text[4..], k - 3);
      OctetAtFurther(text, k - 3);
    }
  }

  // ...and all but the last group give three octets, that one as many as its length and padding say.
  lemma {:induction false} DecodedLength(text: string, groups: nat)
    requires 4 * groups < |text| <= 4 * groups + 4
    ensures |Decode(text)| == 3 * groups + if |text| == 4 * groups + 4 && text[|text| - 1] != '=' then 3
                                           else if |text| > 4 * groups + 2 && text[4 * groups + 2] != '=' then 2
                                           else 1
  {
    hide OctetOf, GroupOfText;
    if groups == 0 {
    } else {
      DecodedLength(text[4..], groups - 1);
    }
  }

  // The URL-safe alphabet of section 5.
  function UrlSafe(text: string): (safe: string)
    ensures |safe| == |text|
  {
    seq(|text|, i requires 0 <= i < |text| => if text[i] == '+' then '-' else if text[i] == '/' then '_' else text[i])
  }

  // Every text decodes the same in either alphabet.
  lemma {:induction false} DecodeUrlSafe(text: string)
    ensures Decode(UrlSafe(text)) == Decode(text)
  {
    hide UrlSafe, GroupOfText, LastGroupOctets, OctetsOf;
    UrlSafeGroup(text);
    if |text| <= 4 {
    } else {
      UrlSafeRest(text);
      DecodeUrlSafe(text[4..]);
    }
  }

  lemma UrlSafeRest(text: string)
    requires |text| > 4
    ensures UrlSafe(text)[4..] == UrlSafe(text[4..])
  {
  }

  lemma UrlSafeGroup(text: string)
    ensures GroupOfText(UrlSafe(text)) == GroupOfText(text)
    ensures 1 <= |text| <= 4 ==> LastGroupOctets(UrlSafe(text)) == LastGroupOctets(text)
  {
    var safe := UrlSafe(text);
    assert forall i :: 0 <= i < |text| ==>
      B64Index(safe[i]) == B64Index(text[i]) && (safe[i] == '=' <==> text[i] == '=');
    hide B64Index, GroupOfSextets, UrlSafe;
  }

  // Where the last group of a text of n characters starts.
  function LastGroupStart(n: nat): nat {
    if n <= 4 then 0 else 4 + LastGroupStart(n - 4)
  }

  // Dropping trailing `=` signs that leave part of the last group changes nothing.
  lemma {:induction false} DecodeStripped(text: string, n: nat)
    requires LastGroupStart(|text|) < n <= |text|
    requires forall i :: n <= i < |text| ==> text[i] == '='
    ensures Decode(text[..n]) == Decode(text)
  {
    if |text| <= 4 {
    } else {
      assert text[..n][4..] == text[4..][..n - 4];
      DecodeStripped(text[4..], n - 4);
    }
  }

  // The round trip of an encoding, whole or without its padding, in either alphabet.
  lemma DecodeEncodeVariants(src: seq<Octet>, n: nat)
    requires n <= |Encode(src)| && forall i :: n <= i < |Encode(src)| ==> Encode(src)[i] == '='
    ensures Decode(Encode(src)[..n]) == src
    ensures Decode(UrlSafe(Encode(src)[..n])) == src
  {
    var text := Encode(src);
    assert Decode(text) == src by {
      DecodeEncode(src);
    }
    if src == [] {
      assert text[..n] == "";
    } else {
      PaddingIsShort(src, n);
      EncodedLastGroup(src);
      DecodeStripped(text, n);
    }
    DecodeUrlSafe(text[..n]);
  }

  lemma {:induction false} EncodedLastGroup(src: seq<Octet>)
    requires src != []
    ensures LastGroupStart(|Encode(src)|) == |Encode(src)| - 4
  {
    if |src| <= 3 {
    } else {
      EncodedLastGroup(src[3..]);
      assert |Encode(src)| == 4 + |Encode(src[3..])| && |Encode(src[3..])| >= 4;
    }
  }

  lemma {:induction false} PaddingIsShort(src: seq<Octet>, n: nat)
    requires n <= |Encode(src)| && forall i :: n <= i < |Encode(src)| ==> Encode(src)[i] == '='
    ensures n >= |Encode(src)| - 2
  {
    var text := Encode(src);
    if 0 < |src| && n + 3 <= |text| {
      var p := |text| - 3;
      assert text[p] == '=';
      OnlyLettersBeforePadding(src, p);
    }
  }

  lemma {:induction false} OnlyLettersBeforePadding(src: seq<Octet>, p: nat)
    requires p + 2 < |Encode(src)|
    ensures InAlphabet(Encode(src)[p])
  {
    var a, b, c := src[0], if |src| > 1 then src[1] else 0, if |src| > 2 then src[2] else 0;
    var g := GroupOfOctets(a, b, c);
    IndexOfLetter(SextetOf(g, 0));
    IndexOfLetter(SextetOf(g, 1));
    IndexOfLetter(SextetOf(g, 2));
    IndexOfLetter(SextetOf(g, 3));
    if p >= 4 {
      OnlyLettersBeforePadding(src[3..], p - 4);
    }
  }

  // Encoded text has letters of the alphabet and `=` only.
  lemma {:induction false} EncodedCharacters(src: seq<Octet>)
    ensures forall i :: 0 <= i < |Encode(src)| ==> InAlphabet(Encode(src)[i]) || Encode(src)[i] == '='
  {
    hide SextetOf, GroupOfOctets, Letter, InAlphabet;
    if |src| == 0 {
    } else {
      var a, b, c := src[0], if |src| > 1 then src[1] else 0, if |src| > 2 then src[2] else 0;
      GroupCharacters(GroupOfOctets(a, b, c), if |src| == 1 then 2 else if |src| == 2 then 3 else 4);
      if |src| > 3 {
        EncodedCharacters(src[3..]);
      }
    }
  }

  lemma GroupCharacters(group: nat, letters: nat)
    requires group < 0x100_0000 && 2 <= letters <= 4
    ensures forall i :: 0 <= i < 4 ==>
              InAlphabet(EncodeGroup(group, letters)[i]) || EncodeGroup(group, letters)[i] == '='
  {
    IndexOfLetter(SextetOf(group, 0));
    IndexOfLetter(SextetOf(group, 1));
    IndexOfLetter(SextetOf(group, 2));
    IndexOfLetter(SextetOf(group, 3));
    hide InAlphabet, Letter, SextetOf;
  }

  // ----- The vectors of section 10 of RFC 4648 -----

  lemma ShortVectors()
    ensures Encode([102]) == "Zg=="
    ensures Encode([102, 111]) == "Zm8="
    ensures Encode([102, 111, 111]) == "Zm9v"
  {
    LettersOf(102, 0, 0, 25, 32, 0, 0);
    LettersOf(102, 111, 0, 25, 38, 60, 0);
    LettersOf(102, 111, 111, 25, 38, 61, 47);
    hide Encode;
  }

  lemma RestOfVectors()
    ensures Encode([98]) == "Yg=="
    ensures Encode([98, 97]) == "YmE="
    ensures Encode([98, 97, 114]) == "YmFy"
  {
    LettersOf(98, 0, 0, 24, 32, 0, 0);
    LettersOf(98, 97, 0, 24, 38, 4, 0);
    LettersOf(98, 97, 114, 24, 38, 5, 50);
    hide Encode;
  }

  lemma LongVectors()
    ensures Encode([102, 111, 111, 98]) == "Zm9vYg=="
    ensures Encode([102, 111, 111, 98, 97]) == "Zm9vYmE="
    ensures Encode([102, 111, 111, 98, 97, 114]) == "Zm9vYmFy"
  {
    ShortVectors();
    RestOfVectors();
    hide Encode;
    EncodeParts([102, 111, 111], [98]);
    assert [102, 111, 111] + [98] == [102, 111, 111, 98];
    EncodeParts([102, 111, 111], [98, 97]);
    assert [102, 111, 111] + [98, 97] == [102, 111, 111, 98, 97];
    EncodeParts([102, 111, 111], [98, 97, 114]);
    assert [102, 111, 111] + [98, 97, 114] == [102, 111, 111, 98, 97, 114];
  }

  lemma Vectors()
    ensures Encode([]) == "" && Decode("") == []
    ensures Encode([102]) == "Zg==" && Decode("Zg==") == [102]
    ensures Encode([102, 111]) == "Zm8=" && Decode("Zm8=") == [102, 111]
    ensures Encode([102, 111, 111]) == "Zm9v" && Decode("Zm9v") == [102, 111, 111]
    ensures Encode([102, 111, 111, 98]) == "Zm9vYg==" && Decode("Zm9vYg==") == [102, 111, 111, 98]
    ensures Encode([102, 111, 111, 98, 97]) == "Zm9vYmE=" && Decode("Zm9vYmE=") == [102, 111, 111, 98, 97]
    ensures Encode([102, 111, 111, 98, 97, 114]) == "Zm9vYmFy" && Decode("Zm9vYmFy") == [102, 111, 111, 98, 97, 114]
  {
    ShortVectors();
    LongVectors();
    DecodeEncode([102]);
    DecodeEncode([102, 111]);
    DecodeEncode([102, 111, 111]);
    DecodeEncode([102, 111, 111, 98]);
    DecodeEncode([102, 111, 111, 98, 97]);
    DecodeEncode([102, 111, 111, 98, 97, 114]);
    hide Encode, Decode;
    NoOctets();
  }

  lemma NoOctets()
    ensures Encode([]) == "" && Decode("") == []
  {
  }

  // ----- base64_encode -----

  // 4 * ((len + 2) / 3) in 32-bit unsigned arithmetic.
  function WrappedLength(len: nat): nat {
    4 * ((len + 2) % 0x1_0000_0000 / 3) % 0x1_0000_0000
  }

  // The overflow check fires exactly when the true length does not fit in 32 bits, and when it
  // does not fire the computed length is the true one.
  lemma OverflowCheckIsExact(len: nat)
    requires len < 0x1_0000_0000
    ensures WrappedLength(len) < len <==> 4 * ((len + 2) / 3) >= 0x1_0000_0000
    ensures WrappedLength(len) >= len ==> WrappedLength(len) == 4 * ((len + 2) / 3)
  {
    if len + 2 < 0x1_0000_0000 {
      var q := (len + 2) / 3;
      if q >= 0x4000_0000 {
        assert 4 * q % 0x1_0000_0000 == 4 * q - 0x1_0000_0000;
      }
    }
  }

  // The four table indices that the code computes are the sextets of the group.
  lemma GroupSextets(a: Octet, b: Octet, c: Octet)
    ensures SextetOf(GroupOfOctets(a, b, c), 0) == a / 4
    ensures SextetOf(GroupOfOctets(a, b, c), 1) == a % 4 * 16 + b / 16
    ensures SextetOf(GroupOfOctets(a, b, c), 2) == b % 16 * 4 + c / 64
    ensures SextetOf(GroupOfOctets(a, b, c), 3) == c % 64
  {
    var g := GroupOfOctets(a, b, c);
    var q1, r1: int := a / 4, a % 4;
    var q2, r2: int := b / 16, b % 16;
    var q3, r3: int := c / 64, c % 64;
    Quotient262144(g, q1, 0x1_0000 * r1 + 0x100 * b + c);
    Quotient4096(g, 16 * a + q2, 0x100 * r2 + c);
    Quotient64(16 * a + q2, q1, 16 * r1 + q2);
    Quotient64(g, 0x400 * a + 4 * b + q3, r3);
    Quotient64(0x400 * a + 4 * b + q3, 16 * a + q2, 4 * r2 + q3);
  }

  // The body of the main loop.
  method WriteGroup(out: array<char>, pos: nat, in0: Octet, in1: Octet, in2: Octet)
    requires pos + 4 <= out.Length
    modifies out
    ensures out[..pos + 4] == old(out[..pos]) + EncodeGroup(GroupOfOctets(in0, in1, in2), 4)
  {
    GroupSextets(in0, in1, in2);
    out[pos] := Letter(in0 / 4);
    out[pos + 1] := Letter(in0 % 4 * 16 + in1 / 16);
    out[pos + 2] := Letter(in1 % 16 * 4 + in2 / 64);
    out[pos + 3] := Letter(in2 % 64);
  }

  // The one or two octets left over.
  method WriteTail(out: array<char>, pos: nat, rest: seq<Octet>)
    requires pos + 4 <= out.Length && 1 <= |rest| <= 2
    modifies out
    ensures out[..pos + 4] == old(out[..pos]) + Encode(rest)
  {
    GroupSextets(rest[0], if |rest| == 1 then 0 else rest[1], 0);
    out[pos] := Letter(rest[0] / 4);
    if |rest| == 1 {
      out[pos + 1] := Letter(rest[0] % 4 * 16);
      out[pos + 2] := '=';
    } else {
      out[pos + 1] := Letter(rest[0] % 4 * 16 + rest[1] / 16);
      out[pos + 2] := Letter(rest[1] % 16 * 4);
    }
    out[pos + 3] := '=';
  }

  lemma EncodeStep(src: seq<Octet>, i: nat)
    requires i + 3 <= |src|
    ensures Encode(src[i..]) == EncodeGroup(GroupOfOctets(src[i], src[i + 1], src[i + 2]), 4) + Encode(src[i + 3..])
  {
  }

  lemma Regroup(done: string, group: string, rest: string, whole: string)
    requires done + (group + rest) == whole
    ensures done + group + rest == whole && |done + group| <= |whole|
  {
  }

  method EncodeInto(out: array<char>, src: seq<Octet>)
    requires out.Length == |Encode(src)|
    modifies out
    ensures out[..] == Encode(src)
  {
    var end, pos, in_ := |src|, 0, 0;
    assert src[0..] == src;
    while end - in_ >= 3
      invariant 0 <= in_ <= end && 0 <= pos <= out.Length
      invariant out[..pos] + Encode(src[in_..]) == Encode(src)
    {
      EncodeStep(src, in_);
      Regroup(out[..pos], EncodeGroup(GroupOfOctets(src[in_], src[in_ + 1], src[in_ + 2]), 4),
              Encode(src[in_ + 3..]), Encode(src));
      WriteGroup(out, pos, src[in_], src[in_ + 1], src[in_ + 2]);
      pos := pos + 4;
      in_ := in_ + 3;
    }
    assert |out[..pos] + Encode(src[in_..])| == pos + |Encode(src[in_..])| == out.Length;
    if end - in_ != 0 {
      WriteTail(out, pos, src[in_..]);
      pos := pos + 4;
    }
    assert pos == out.Length;
    assert out[..] == out[..pos];
  }

  method Base64Encode(src: seq<Octet>) returns (outStr: string)
    requires |src| < 0x1_0000_0000
    ensures outStr == if 4 * ((|src| + 2) / 3) < 0x1_0000_0000 then Encode(src) else ""
  {
    var olen := WrappedLength(|src|);
    OverflowCheckIsExact(|src|);
    EncodedLength(src);
    if olen < |src| {
      return "";
    }
    var out := new char[olen];
    EncodeInto(out, src);
    outStr := out[..];
  }

  // ----- base64_decode -----

  // data.c_str()[k]: the character after the last is the terminating NUL.
  function CharAt(data: string, k: nat): char
    requires k <= |data|
  {
    if k < |data| then data[k] else '\0'
  }

  lemma DecodeStep(data: string, i: nat)
    requires i + 4 <= |data| && (i + 4 == |data| ==> data[i + 3] != '=')
    ensures Decode(data[i..]) == OctetsOf(GroupOfText(data[i..]), 3) + Decode(data[i + 4..])
  {
  }

  lemma DecodeLast(data: string, i: nat)
    requires i < |data| <= i + 4 && (|data| == i + 4 ==> data[i + 3] == '=')
    ensures var g := GroupOfText(data[i..]);
            Decode(data[i..]) == [OctetOf(g, 0)] + if |data| > i + 2 && data[i + 2] != '=' then [OctetOf(g, 1)] else []
  {
  }

  // The body of the loop: one group of four characters, three octets at j.
  method ReadGroup(data: string, i: nat, str: seq<Octet>, j: nat) returns (str': seq<Octet>)
    requires i + 4 <= |data| && j + 3 <= |str|
    ensures |str'| == |str| && str'[..j + 3] == str[..j] + OctetsOf(GroupOfText(data[i..]), 3)
  {
    var n := B64Index(data[i]) * 0x4_0000 + B64Index(data[i + 1]) * 0x1000
             + B64Index(data[i + 2]) * 64 + B64Index(data[i + 3]);
    assert n == GroupOfText(data[i..]);
    str' := str[j := n / 0x1_0000];
    str' := str'[j + 1 := n / 0x100 % 256];
    str' := str'[j + 2 := n % 256];
  }

  // The low sextets of a group do not reach its first octets.
  lemma FirstOctets(v0: Sextet, v1: Sextet, v2: Sextet, v3: Sextet)
    ensures OctetOf(GroupOfSextets(v0, v1, v2, v3), 0) == (v0 * 0x4_0000 + v1 * 0x1000) / 0x1_0000
    ensures OctetOf(GroupOfSextets(v0, v1, v2, v3), 1) == (v0 * 0x4_0000 + v1 * 0x1000 + v2 * 64) / 0x100 % 256
  {
    var q1, r1: int := v1 / 16, v1 % 16;
    var q2, r2: int := v2 / 4, v2 % 4;
    var n := v0 * 0x4_0000 + v1 * 0x1000;
    Quotient65536(n, 4 * v0 + q1, 0x1000 * r1);
    Quotient65536(n + v2 * 64 + v3, 4 * v0 + q1, 0x1000 * r1 + 64 * v2 + v3);
    Quotient256(n + v2 * 64, 0x400 * v0 + 16 * v1 + q2, 64 * r2);
    Quotient256(n + v2 * 64 + v3, 0x400 * v0 + 16 * v1 + q2, 64 * r2 + v3);
  }

  // The branch for an incomplete or padded last group, whose first octet has its place at the
  // end of `str` already.
  method ReadLast(data: string, L: nat, str: seq<Octet>) returns (str': seq<Octet>)
    requires L < |data| <= L + 4 && (|data| == L + 4 ==> data[L + 3] == '=') && |str| > 0
    ensures str' == str[..|str| - 1] + Decode(data[L..])
  {
    DecodeLast(data, L);
    var p0: int, p1: int := B64Index(data[L]), B64Index(CharAt(data, L + 1));
    ghost var t := data[L..];
    FirstOctets(p0, p1, if |t| > 2 then B64Index(t[2]) else 0, if |t| > 3 then B64Index(t[3]) else 0);
    var n := p0 * 0x4_0000 + p1 * 0x1000;
    assert OctetOf(GroupOfText(t), 0) == n / 0x1_0000;
    str' := str[|str| - 1 := n / 0x1_0000];
    if |data| > L + 2 && data[L + 2] != '=' {
      n := n + B64Index(data[L + 2]) * 64;
      str' := str' + [n / 0x100 % 256];
    }
  }

  lemma RegroupOctets(done: seq<Octet>, octets: seq<Octet>, rest: seq<Octet>, whole: seq<Octet>)
    requires done + (octets + rest) == whole
    ensures done + octets + rest == whole
  {
  }

  // The loop over the groups before the last incomplete or padded one.
  method ReadGroups(data: string, L: nat, zeros: seq<Octet>, ghost groups: nat) returns (str: seq<Octet>)
    requires L == 4 * groups <= |data| && 3 * groups <= |zeros|
    requires L == |data| > 0 ==> data[L - 1] != '='
    ensures |str| == |zeros| && str[..3 * groups] + Decode(data[L..]) == Decode(data)
  {
    hide Decode, GroupOfText, OctetsOf;
    str := zeros;
    var i, j := 0, 0;
    ghost var group := 0;
    assert data[0..] == data;
    while i < L
      invariant i == 4 * group && j == 3 * group && group <= groups && |str| == |zeros|
      invariant str[..j] + Decode(data[i..]) == Decode(data)
    {
      DecodeStep(data, i);
      RegroupOctets(str[..j], OctetsOf(GroupOfText(data[i..]), 3), Decode(data[i + 4..]), Decode(data));
      str := ReadGroup(data, i, str, j);
      i := i + 4;
      j := j + 3;
      group := group + 1;
    }
  }

  // `pad` says whether the last group needs the branch after the loop; `groups` counts the
  // others.
  method CountGroups(data: string) returns (pad: nat, groups: nat)
    requires |data| + 3 < 0x8000_0000
    ensures pad == 0 ==> 4 * groups == |data| && (|data| > 0 ==> data[|data| - 1] != '=')
    ensures pad != 0 ==> pad == 1 && 4 * groups < |data| <= 4 * groups + 4
    ensures pad == 1 && |data| == 4 * groups + 4 ==> data[|data| - 1] == '='
  {
    var len := |data|;
    pad := if len > 0 && (len % 4 != 0 || data[len - 1] == '=') then 1 else 0;
    groups := (len + 3) / 4 - pad;
  }

  method Base64Decode(data: string) returns (str: seq<Octet>)
    requires |data| + 3 < 0x8000_0000
    ensures str == Decode(data)
  {
    var pad, groups := CountGroups(data);
    var L := 4 * groups;
    str := ReadGroups(data, L, seq(L / 4 * 3 + pad, _ => 0), groups);
    hide Decode;
    if pad == 1 {
      str := ReadLast(data, L, str);
    } else {
      NoOctets();
      assert data[L..] == "" && str[..3 * groups] == str;
    }
  }
}
