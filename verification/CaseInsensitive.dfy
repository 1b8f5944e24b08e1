/** The comparison and the hash of `CaseInsensitiveMultimap`. */
module CaseInsensitive {

  // `tolower` in the C locale.
  function ToLower(c: char): char {
    if 'A' <= c <= 'Z' then (c as int + 32) as char else c
  }

  function Lower(s: string): (r: string)
    ensures |r| == |s| && forall i :: 0 <= i < |s| ==> r[i] == ToLower(s[i])
  {
    seq(|s|, i requires 0 <= i < |s| => ToLower(s[i]))
  }

  // `case_insensitive_equal`: the sizes, then std::equal over the characters.
  predicate CaseInsensitiveEqual(a: string, b: string) {
    |a| == |b| && forall i :: 0 <= i < |a| ==> ToLower(a[i]) == ToLower(b[i])
  }

  // Equal are exactly the strings that read the same in lower case.
  lemma EqualIsSameLowerCase(a: string, b: string)
    ensures CaseInsensitiveEqual(a, b) <==> Lower(a) == Lower(b)
  {
  }

  // An equivalence relation that holds between a string and its lower case.
  lemma EqualIsAnEquivalence(a: string, b: string, c: string)
    ensures CaseInsensitiveEqual(a, a) && CaseInsensitiveEqual(a, Lower(a))
    ensures CaseInsensitiveEqual(a, b) <==> CaseInsensitiveEqual(b, a)
    ensures CaseInsensitiveEqual(a, b) && CaseInsensitiveEqual(b, c) ==> CaseInsensitiveEqual(a, c)
  {
  }

  // One of the characters is a letter from `A` to `Z`, and the other one the same small letter.
  predicate SameLetter(a: char, b: char) {
    ('A' <= a <= 'Z' && b as int == a as int + 32) || ('A' <= b <= 'Z' && a as int == b as int + 32)
  }

  // Two strings are equated if and only if they differ at most in the case of letters.
  lemma EqualUpToCase(a: string, b: string)
    ensures CaseInsensitiveEqual(a, b) <==>
            |a| == |b| && forall i :: 0 <= i < |a| ==> a[i] == b[i] || SameLetter(a[i], b[i])
  {
    if |a| == |b| {
      forall i | 0 <= i < |a|
        ensures ToLower(a[i]) == ToLower(b[i]) <==> a[i] == b[i] || SameLetter(a[i], b[i])
      {
        SameInLowerCase(a[i], b[i]);
      }
      hide ToLower, SameLetter;
    }
  }

  lemma SameInLowerCase(a: char, b: char)
    ensures ToLower(a) == ToLower(b) <==> a == b || SameLetter(a, b)
  {
  }

  // One step of the hash, on 64 bits; `std::hash<int>` is any function.
  function Mix(hash: int -> bv64, h: bv64, code: int): bv64 {
    h ^ (hash(code) + 0x9e3779b9 + (h << 6) + (h >> 2))
  }

  function Mixed(hash: int -> bv64, s: string): bv64 {
    if s == "" then 0 else Mix(hash, Mixed(hash, s[..|s| - 1]), ToLower(s[|s| - 1]) as int)
  }

  // `CaseInsensitiveHash`.
  method CaseInsensitiveHash(hash: int -> bv64, s: string) returns (h: bv64)
    ensures h == Mixed(hash, s)
  {
    hide Mix;
    h := 0;
    for i := 0 to |s|
      invariant h == Mixed(hash, s[..i])
    {
      assert s[..i + 1][..i] == s[..i];
      h := Mix(hash, h, ToLower(s[i]) as int);
    }
    assert s[..|s|] == s;
  }

  // What an unordered multimap requires: equal keys have equal hashes.
  lemma {:induction false} EqualStringsHaveEqualHashes(hash: int -> bv64, a: string, b: string)
    requires CaseInsensitiveEqual(a, b)
    ensures Mixed(hash, a) == Mixed(hash, b)
    decreases |a|
  {
    hide Mix, ToLower;
    if a == "" {
    } else {
      EqualStringsHaveEqualHashes(hash, a[..|a| - 1], b[..|b| - 1]);
    }
  }

  lemma FirstMix(hash: int -> bv64, code: int)
    ensures Mix(hash, 0, code) == hash(code) + 0x9e3779b9
  {
  }

  // The hash of one character, which is that of its code in lower case...
  lemma HashOfOne(hash: int -> bv64, c: char, code: int)
    requires code == if 'A' <= c <= 'Z' then c as int + 32 else c as int
    ensures Mixed(hash, [c]) == hash(code) + 0x9e3779b9
  {
    FirstMix(hash, code);
    assert ToLower(c) as int == code;
    hide Mix, ToLower;
    MixedOne(hash, c);
  }

  lemma MixedOne(hash: int -> bv64, c: char)
    ensures Mixed(hash, [c]) == Mix(hash, 0, ToLower(c) as int)
  {
    hide Mix;
    assert [c][..0] == "";
  }

  lemma SecondMix(hash: int -> bv64, code: int)
    requires hash(code) == 0
    ensures Mix(hash, 0x9e3779b9, code) == 0x28cd94bfde
  {
  }

  // ...and of two, where `std::hash` gives zero for both.
  lemma HashOfTwo(hash: int -> bv64, a: char, b: char)
    requires hash(ToLower(a) as int) == hash(ToLower(b) as int) == 0
    ensures Mixed(hash, [a, b]) == 0x28cd94bfde
  {
    FirstMix(hash, ToLower(a) as int);
    SecondMix(hash, ToLower(b) as int);
    hide Mix, ToLower;
    MixedOne(hash, a);
    assert [a, b][..1] == [a];
  }
}
