/** `Percent::encode` and `Percent::decode`: percent-encoding over the unreserved characters of
    section 2.3 of RFC 3986, and decoding of any text. A C++ `char` is a character whose code
    is its value as an `unsigned char`. */
module Percent {
  import Text

  ghost predicate IsByteString(s: string) {
    forall i :: 0 <= i < |s| ==> s[i] as int < 256
  }

  // ----- Characters -----

  // Section 2.3 of RFC 3986.
  predicate Unreserved(c: char) {
    '0' <= c <= '9' || 'A' <= c <= 'Z' || 'a' <= c <= 'z' || c == '-' || c == '.' || c == '_' || c == '~'
  }

  function HexChar(n: nat): char
    requires n < 16
  {
    if n < 10 then ('0' as int + n) as char else ('A' as int + (n - 10)) as char
  }

  predicate IsHexDigit(c: char) {
    '0' <= c <= '9' || 'A' <= c <= 'F' || 'a' <= c <= 'f'
  }

  function HexValue(c: char): (v: nat)
    requires IsHexDigit(c)
    ensures v < 16
  {
    if c <= '9' then c as int - '0' as int
    else if c <= 'F' then c as int - 'A' as int + 10
    else c as int - 'a' as int + 10
  }

  predicate IsSpace(c: char) {
    c == ' ' || 9 <= c as int <= 13
  }

  // strtol(s, nullptr, 16) on the two-character text c0 c1: leading white space, a sign, then as
  // many digits as there are. After the digit 0 an `x` is not a digit, so the prefix `0x` alone
  // is the number 0.
  function Strtol16(c0: char, c1: char): (n: int)
    ensures -16 < n < 256
  {
    if IsHexDigit(c0) then (if IsHexDigit(c1) then 16 * HexValue(c0) + HexValue(c1) else HexValue(c0))
    else if (IsSpace(c0) || c0 == '+') && IsHexDigit(c1) then HexValue(c1)
    else if c0 == '-' && IsHexDigit(c1) then -(HexValue(c1) as int)
    else 0
  }

  // strtol to base 16 on any text: white space, a sign, `0x` if a digit follows it, and digits
  // (section 7.22.1.4 of C11).
  function Strtol(text: string): int {
    if text == "" then 0
    else if IsSpace(text[0]) then Strtol(text[1..])
    else if text[0] == '-' then -Unsigned(text[1..])
    else if text[0] == '+' then Unsigned(text[1..])
    else Unsigned(text)
  }

  function Unsigned(text: string): int {
    if |text| > 2 && text[0] == '0' && (text[1] == 'x' || text[1] == 'X') && IsHexDigit(text[2])
    then Digits(text[2..], 0)
    else Digits(text, 0)
  }

  function Digits(text: string, n: nat): nat {
    if text == "" || !IsHexDigit(text[0]) then n else Digits(text[1..], 16 * n + HexValue(text[0]))
  }

  lemma Strtol16IsStrtol(c0: char, c1: char)
    ensures Strtol16(c0, c1) == Strtol([c0, c1])
  {
    var text := [c0, c1];
    assert text[1..] == [c1];
    DigitsOfOne(c1, 0);
    if IsHexDigit(c0) {
      DigitsOfOne(c1, HexValue(c0));
    } else if IsSpace(c0) {
      StrtolOfOne(c1);
      assert Strtol(text) == Strtol(text[1..]);
    }
  }

  lemma StrtolOfOne(c: char)
    ensures Strtol([c]) == if IsHexDigit(c) then HexValue(c) else 0
  {
    assert [c][1..] == "" && Digits("", 0) == 0;
    DigitsOfOne(c, 0);
  }

  lemma DigitsOfOne(c: char, n: nat)
    ensures Digits([c], n) == if IsHexDigit(c) then 16 * n + HexValue(c) else n
  {
    assert [c][1..] == "";
  }

  // The conversion of that number to `char`.
  function DecodedChar(c0: char, c1: char): char {
    (Strtol16(c0, c1) % 256) as char
  }

  // ----- Specifications -----

  function EncodeChar(c: char): string
    requires c as int < 256
  {
    if Unreserved(c) then [c] else ['%', HexChar(c as int / 16), HexChar(c as int % 16)]
  }

  function Encode(value: string): string
    requires IsByteString(value)
  {
    if value == "" then "" else EncodeChar(value[0]) + Encode(value[1..])
  }

  // A `%` with two characters after it stands for one character, a `+` for a space, and any
  // other character for itself.
  function Decode(value: string): string {
    if value == "" then ""
    else if value[0] == '%' && |value| > 2 then [DecodedChar(value[1], value[2])] + Decode(value[3..])
    else [if value[0] == '+' then ' ' else value[0]] + Decode(value[1..])
  }

  // One step of decoding, at the front of a text.
  lemma DecodePair(c0: char, c1: char, rest: string)
    ensures Decode(['%', c0, c1] + rest) == [DecodedChar(c0, c1)] + Decode(rest)
  {
  }

  lemma DecodeOne(c: char, rest: string)
    requires c == '%' ==> |rest| < 2
    ensures Decode([c] + rest) == [if c == '+' then ' ' else c] + Decode(rest)
  {
  }

  // ----- The code -----

  lemma {:induction false} EncodeSnoc(s: string, c: char)
    requires IsByteString(s + [c])
    ensures IsByteString(s) && c as int < 256 && Encode(s + [c]) == Encode(s) + EncodeChar(c)
  {
    assert (s + [c])[|s|] == c;
    forall i | 0 <= i < |s|
      ensures s[i] as int < 256
    {
      assert (s + [c])[i] == s[i];
    }
    if s == "" {
      assert s + [c] == [c];
      assert Encode([c]) == EncodeChar(c) + "";
    } else {
      assert (s + [c])[1..] == s[1..] + [c];
      EncodeSnoc(s[1..], c);
    }
  }

  method PercentEncode(value: string) returns (result: string)
    requires IsByteString(value)
    ensures result == Encode(value)
  {
    result := "";
    for i := 0 to |value|
      invariant IsByteString(value[..i]) && result == Encode(value[..i])
    {
      var chr := value[i];
      EncodeSnoc(value[..i], chr);
      assert value[..i] + [chr] == value[..i + 1];
      if !('0' <= chr <= '9' || 'A' <= chr <= 'Z' || 'a' <= chr <= 'z'
           || chr == '-' || chr == '.' || chr == '_' || chr == '~') {
        result := result + ['%', HexChar(chr as int / 16), HexChar(chr as int % 16)];
      } else {
        result := result + [chr];
      }
    }
    assert value[..|value|] == value;
  }

  lemma DecodeNothing()
    ensures Decode("") == ""
  {
  }

  // The character that the iteration at position i appends, and where it leaves off.
  lemma DecodeStep(value: string, i: nat)
    requires i < |value|
    ensures value[i] == '%' && i + 2 < |value| ==>
              Decode(value[i..]) == [DecodedChar(value[i + 1], value[i + 2])] + Decode(value[i + 3..])
    ensures !(value[i] == '%' && i + 2 < |value|) ==>
              Decode(value[i..]) == [if value[i] == '+' then ' ' else value[i]] + Decode(value[i + 1..])
  {
  }

  method PercentDecode(value: string) returns (result: string)
    ensures result == Decode(value)
  {
    hide Decode, DecodedChar;
    result := "";
    var i := 0;
    assert value[0..] == value;
    while i < |value|
      invariant 0 <= i <= |value|
      invariant result + Decode(value[i..]) == Decode(value)
    {
      DecodeStep(value, i);
      var chr := value[i];
      ghost var done := result;
      if chr == '%' && i + 2 < |value| {
        result := result + [DecodedChar(value[i + 1], value[i + 2])];
        i := i + 2;
      } else if chr == '+' {
        result := result + [' '];
      } else {
        result := result + [chr];
      }
      Text.MoveOne(done, result[|done|], Decode(value[i + 1..]), Decode(value));
      i := i + 1;
    }
    DecodeNothing();
    assert value[i..] == "";
  }

  // ----- Properties -----

  lemma HexPair(c: char)
    requires c as int < 256
    ensures IsHexDigit(HexChar(c as int / 16)) && IsHexDigit(HexChar(c as int % 16))
    ensures HexChar(c as int / 16) <= 'F' && HexChar(c as int % 16) <= 'F'
    ensures DecodedChar(HexChar(c as int / 16), HexChar(c as int % 16)) == c
  {
    var n := c as int;
    assert n == 16 * (n / 16) + n % 16;
    assert Strtol16(HexChar(n / 16), HexChar(n % 16)) == n;
  }

  lemma DecodeEncodedChar(c: char, rest: string)
    requires c as int < 256
    ensures Decode(EncodeChar(c) + rest) == [c] + Decode(rest)
  {
    if Unreserved(c) {
      DecodeOne(c, rest);
    } else {
      HexPair(c);
      DecodePair(HexChar(c as int / 16), HexChar(c as int % 16), rest);
    }
  }

  // Decoding undoes encoding, also in front of any other text.
  lemma {:induction false} DecodeEncodedPrefix(value: string, rest: string)
    requires IsByteString(value)
    ensures Decode(Encode(value) + rest) == value + Decode(rest)
  {
    if value == "" {
      assert Encode(value) + rest == rest;
    } else {
      Text.Associative(EncodeChar(value[0]), Encode(value[1..]), rest);
      DecodeEncodedChar(value[0], Encode(value[1..]) + rest);
      DecodeEncodedPrefix(value[1..], rest);
      Text.FrontAndRest(value, Decode(rest));
      hide Decode, EncodeChar;
    }
  }

  lemma DecodeEncode(value: string)
    requires IsByteString(value)
    ensures Decode(Encode(value)) == value
  {
    DecodeEncodedPrefix(value, "");
    assert Encode(value) + "" == Encode(value);
  }

  // Texts made of unreserved characters and of upper-case pairs %HH that stand for other
  // characters.
  predicate Normal(text: string) {
    if text == "" then true
    else if text[0] == '%' then
      && |text| > 2 && IsHexDigit(text[1]) && IsHexDigit(text[2]) && text[1] <= 'F' && text[2] <= 'F'
      && !Unreserved(DecodedChar(text[1], text[2])) && Normal(text[3..])
    else Unreserved(text[0]) && Normal(text[1..])
  }

  lemma NormalPair(c0: char, c1: char, rest: string)
    requires IsHexDigit(c0) && IsHexDigit(c1) && c0 <= 'F' && c1 <= 'F' && !Unreserved(DecodedChar(c0, c1))
    ensures Normal(['%', c0, c1] + rest) <==> Normal(rest)
  {
  }

  lemma NormalOne(c: char, rest: string)
    requires Unreserved(c)
    ensures Normal([c] + rest) <==> Normal(rest)
  {
  }

  lemma {:induction false} EncodeIsNormal(value: string)
    requires IsByteString(value)
    ensures Normal(Encode(value))
  {
    if value == "" {
    } else {
      EncodeIsNormal(value[1..]);
      var c := value[0];
      if Unreserved(c) {
        NormalOne(c, Encode(value[1..]));
      } else {
        HexPair(c);
        NormalPair(HexChar(c as int / 16), HexChar(c as int % 16), Encode(value[1..]));
      }
    }
  }

  // Encoding undoes decoding on exactly those texts.
  lemma EncodeDecode(text: string)
    requires IsByteString(text)
    ensures IsByteString(Decode(text))
    ensures Encode(Decode(text)) == text <==> Normal(text)
  {
    DecodedIsByteString(text);
    EncodeIsNormal(Decode(text));
    if Normal(text) {
      NormalIsRestored(text);
    }
  }

  lemma {:induction false} DecodedIsByteString(text: string)
    requires IsByteString(text)
    ensures IsByteString(Decode(text))
  {
    if text == "" {
    } else {
      if text[0] == '%' && |text| > 2 {
        DecodedIsByteString(text[3..]);
      } else {
        DecodedIsByteString(text[1..]);
      }
    }
  }

  lemma HexCharOfValue(c: char)
    requires IsHexDigit(c) && c <= 'F'
    ensures HexChar(HexValue(c)) == c
  {
  }

  lemma PairIsRestored(c0: char, c1: char)
    requires IsHexDigit(c0) && IsHexDigit(c1) && c0 <= 'F' && c1 <= 'F' && !Unreserved(DecodedChar(c0, c1))
    ensures DecodedChar(c0, c1) as int < 256 && EncodeChar(DecodedChar(c0, c1)) == ['%', c0, c1]
  {
    HexCharOfValue(c0);
    HexCharOfValue(c1);
    SplitCode(HexValue(c0), HexValue(c1));
  }

  lemma SplitCode(high: nat, low: nat)
    requires high < 16 && low < 16
    ensures (16 * high + low) / 16 == high && (16 * high + low) % 16 == low
    ensures (16 * high + low) % 256 == 16 * high + low
  {
  }

  lemma EncodeCons(c: char, rest: string)
    requires IsByteString([c] + rest)
    ensures c as int < 256 && IsByteString(rest) && Encode([c] + rest) == EncodeChar(c) + Encode(rest)
  {
    var s := [c] + rest;
    assert s[0] == c;
    assert s[1..] == rest;
    forall i | 0 <= i < |rest|
      ensures rest[i] as int < 256
    {
      assert s[i + 1] == rest[i];
    }
  }

  lemma {:induction false} NormalIsRestored(text: string)
    requires IsByteString(Decode(text)) && Normal(text)
    ensures Encode(Decode(text)) == text
  {
    hide IsByteString, IsHexDigit, Unreserved, DecodedChar, EncodeChar, Encode;
    if text == "" {
      EncodeNothing();
    } else {
      var n := if text[0] == '%' then 3 else 1;
      var rest := text[n..];
      var c := if n == 3 then DecodedChar(text[1], text[2]) else text[0];
      if n == 3 {
        PairIsRestored(text[1], text[2]);
      } else {
        UnreservedIsKept(text[0]);
      }
      assert Decode(text) == [c] + Decode(rest);
      EncodeCons(c, Decode(rest));
      NormalIsRestored(rest);
      assert text == text[..n] + rest;
    }
  }

  lemma EncodeNothing()
    ensures Encode("") == ""
  {
  }

  lemma UnreservedIsKept(c: char)
    requires Unreserved(c)
    ensures c as int < 256 && c != '+' && EncodeChar(c) == [c]
  {
  }

  // Encoded text is made of unreserved characters and `%` only.
  lemma {:induction false} EncodedCharacters(value: string)
    requires IsByteString(value)
    ensures forall i :: 0 <= i < |Encode(value)| ==> Unreserved(Encode(value)[i]) || Encode(value)[i] == '%'
  {
    if value == "" {
    } else {
      EncodedCharacters(value[1..]);
    }
  }

  // The bounds behind the two `reserve` calls.
  lemma {:induction false} DecodedLength(text: string)
    ensures |text| / 3 + |text| % 3 <= |Decode(text)| <= |text|
  {
    if text == "" {
    } else {
      if text[0] == '%' && |text| > 2 {
        DecodedLength(text[3..]);
      } else {
        DecodedLength(text[1..]);
      }
    }
  }

  lemma {:induction false} EncodedLength(value: string)
    requires IsByteString(value)
    ensures |value| <= |Encode(value)| <= 3 * |value|
  {
    if value == "" {
    } else {
      EncodedLength(value[1..]);
    }
  }

  // ----- Literals -----

  // The unreserved characters of section 2.3, written out.
  const UNRESERVED := "ABCDEFGHIJKLMNOPQRSTUVWXYZ" + "abcdefghijklmnopqrstuvwxyz" + "0123456789" + "-._~"

  lemma UnreservedIs(c: char)
    ensures Unreserved(c) <==> c in UNRESERVED
  {
    if Unreserved(c) {
      UnreservedIsListed(c);
    }
    if k: nat :| k < |UNRESERVED| && UNRESERVED[k] == c {
      ListedIsUnreserved(k);
    }
  }

  lemma UnreservedIsListed(c: char)
    requires Unreserved(c)
    ensures c in UNRESERVED
  {
    if 'A' <= c <= 'Z' {
      Text.CapitalLetter(c as int - 'A' as int);
      assert UNRESERVED[c as int - 'A' as int] == c;
    } else if 'a' <= c <= 'z' {
      Text.SmallLetter(c as int - 'a' as int);
      assert UNRESERVED[c as int - 'a' as int + 26] == c;
    } else if '0' <= c <= '9' {
      Text.DecimalDigit(c as int - '0' as int);
      assert UNRESERVED[c as int - '0' as int + 52] == c;
    }
  }

  lemma ListedIsUnreserved(k: nat)
    requires k < |UNRESERVED|
    ensures Unreserved(UNRESERVED[k])
  {
    if k < 26 {
      Text.CapitalLetter(k);
    } else if k < 52 {
      Text.SmallLetter(k - 26);
    } else if k < 62 {
      Text.DecimalDigit(k - 52);
    }
  }

  // The digits of a percent code, in capital and in small letters...
  lemma HexDigits(k: nat)
    requires k < 16
    ensures HexChar(k) == "0123456789ABCDEF"[k]
    ensures IsHexDigit("0123456789ABCDEF"[k]) && HexValue("0123456789ABCDEF"[k]) == k
    ensures IsHexDigit("0123456789abcdef"[k]) && HexValue("0123456789abcdef"[k]) == k
  {
  }

  // ...so a code in either stands for the character with that number.
  lemma CodeIsDecoded(i: nat, j: nat, c0: char, c1: char, rest: string)
    requires i < 16 && (c0 == "0123456789ABCDEF"[i] || c0 == "0123456789abcdef"[i])
    requires j < 16 && (c1 == "0123456789ABCDEF"[j] || c1 == "0123456789abcdef"[j])
    ensures Decode(['%', c0, c1] + rest) == [(16 * i + j) as char] + Decode(rest)
  {
    HexDigits(i);
    HexDigits(j);
    SplitCode(i, j);
    DecodePair(c0, c1, rest);
    hide Decode, HexValue, IsHexDigit, HexChar;
  }

  // A character is encoded as itself or as its code in capital letters.
  lemma CharacterIsEncoded(c: char, rest: string)
    requires IsByteString([c] + rest)
    ensures c as int < 256 && IsByteString(rest)
    ensures Encode([c] + rest)
         == (if c in UNRESERVED then [c]
             else ['%', "0123456789ABCDEF"[c as int / 16], "0123456789ABCDEF"[c as int % 16]]) + Encode(rest)
  {
    EncodeCons(c, rest);
    UnreservedIs(c);
    HexDigits(c as int / 16);
    HexDigits(c as int % 16);
    hide Encode, HexChar, HexValue, IsHexDigit, Unreserved;
  }

  // The other characters, and codes cut off by the end.
  lemma OthersAreDecoded(c: char, rest: string)
    ensures Decode("") == "" && Decode("%") == "%" && Decode(['%', c]) == ['%'] + Decode([c])
    ensures Decode(['+'] + rest) == [' '] + Decode(rest)
    ensures c != '%' && c != '+' ==> Decode([c] + rest) == [c] + Decode(rest)
  {
    DecodeOne('+', rest);
    DecodeOne('%', [c]);
    DecodeOne('%', "");
    if c != '%' {
      DecodeOne(c, rest);
    }
    assert ['%'] + [c] == ['%', c] && ['%'] + "" == "%" && Decode("") == "";
    hide Decode;
  }

  // What strtol makes of two characters that are not both digits.
  lemma OddCodes()
    ensures Strtol16('-', '1') == -1 && Strtol16('+', 'a') == 10
    ensures Strtol16('0', 'x') == 0 && Strtol16('7', 'z') == 7 && Strtol16('z', '7') == 0 && Strtol16('-', 'z') == 0
    ensures forall c: char :: c as int in {9, 10, 11, 12, 13, 32} ==> Strtol16(c, '7') == 7 && Strtol16(c, c) == 0
    ensures DecodedChar('-', '1') as int == 255
  {
  }
}
