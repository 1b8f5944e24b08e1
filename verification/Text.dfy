/** Facts about strings that the scanners share. */
module Text {

  // std::string::npos, which is greater than the size of every string.
  const NPOS: nat := 0xffff_ffff_ffff_ffff

  // An entry of a CaseInsensitiveMultimap. A multimap is modelled by the sequence of its entries
  // in the order of the `emplace` calls.
  datatype Field = Field(name: string, value: string)

  datatype Option<T> = None | Some(value: T)

  // Position of the first character of s at or after `from` that is one of `chars`, or |s|
  // where `std::string::find` has npos.
  function FindAny(s: string, from: nat, chars: set<char>): (k: nat)
    requires from <= |s|
    ensures from <= k <= |s|
    ensures forall i :: from <= i < k ==> s[i] !in chars
    ensures k < |s| ==> s[k] in chars
    decreases |s| - from
  {
    if from == |s| || s[from] in chars then from else FindAny(s, from + 1, chars)
  }

  function Find(s: string, from: nat, c: char): (k: nat)
    requires from <= |s|
    ensures from <= k <= |s|
    ensures forall i :: from <= i < k ==> s[i] != c
    ensures k < |s| ==> s[k] == c
  {
    FindAny(s, from, {c})
  }

  // The properties of `Find` determine its result.
  lemma FindIs(s: string, from: nat, chars: set<char>, k: nat)
    requires from <= k <= |s|
    requires forall i :: from <= i < k ==> s[i] !in chars
    requires k < |s| ==> s[k] in chars
    ensures FindAny(s, from, chars) == k
  {
  }

  predicate Without(s: string, chars: set<char>) {
    forall i :: 0 <= i < |s| ==> s[i] !in chars
  }

  // Moving one element from the front of what is left to the end of what is done.
  lemma MoveOne<T>(done: seq<T>, x: T, rest: seq<T>, whole: seq<T>)
    requires done + ([x] + rest) == whole
    ensures done + [x] + rest == whole
  {
  }

  lemma Associative<T>(a: seq<T>, b: seq<T>, c: seq<T>)
    ensures a + b + c == a + (b + c)
  {
  }

  lemma FrontAndRest<T>(s: seq<T>, end: seq<T>)
    requires s != []
    ensures [s[0]] + (s[1..] + end) == s + end
  {
  }

  // ----- Delimiters -----

  lemma WithoutParts(a: string, b: string, chars: set<char>)
    ensures Without(a + b, chars) <==> Without(a, chars) && Without(b, chars)
  {
    var s := a + b;
    if Without(s, chars) {
      assert forall i :: 0 <= i < |a| ==> a[i] == s[i];
      assert forall i :: 0 <= i < |b| ==> b[i] == s[|a| + i];
    }
  }

  lemma WithoutFewer(s: string, chars: set<char>, fewer: set<char>)
    requires Without(s, chars) && fewer <= chars
    ensures Without(s, fewer)
  {
  }

  lemma FindNone(s: string, chars: set<char>)
    requires Without(s, chars)
    ensures FindAny(s, 0, chars) == |s|
  {
  }

  // The first delimiter of a text that starts with a part free of delimiters.
  lemma FindFirst(a: string, c: char, b: string, chars: set<char>)
    requires Without(a, chars) && c in chars
    ensures FindAny(a + [c] + b, 0, chars) == |a|
    ensures (a + [c] + b)[..|a|] == a && (a + [c] + b)[|a|] == c && (a + [c] + b)[|a| + 1..] == b
  {
    var s := a + [c] + b;
    assert forall i :: 0 <= i < |a| ==> s[i] == a[i];
    FindIs(s, 0, chars, |a|);
  }

  // What stands before the first delimiter has none.
  lemma BeforeFirst(s: string, chars: set<char>)
    ensures Without(s[..FindAny(s, 0, chars)], chars)
  {
  }

  lemma FindSuffix(s: string, from: nat, c: char)
    requires from <= |s|
    ensures Find(s, from, c) == from + Find(s[from..], 0, c)
  {
  }

  // Cutting a text at its first delimiter.
  lemma CutAtFirst(s: string, c: char)
    requires Find(s, 0, c) < |s|
    ensures Without(s[..Find(s, 0, c)], {c})
    ensures s == s[..Find(s, 0, c)] + [c] + s[Find(s, 0, c) + 1..]
    ensures s == s[..Find(s, 0, c)] + ([c] + s[Find(s, 0, c) + 1..])
  {
  }

  // ----- Alphabets -----

  lemma CapitalLetter(k: nat)
    requires k < 26
    ensures "ABCDEFGHIJKLMNOPQRSTUVWXYZ"[k] as int == 'A' as int + k
  {
  }

  lemma SmallLetter(k: nat)
    requires k < 26
    ensures "abcdefghijklmnopqrstuvwxyz"[k] as int == 'a' as int + k
  {
  }

  lemma DecimalDigit(k: nat)
    requires k < 10
    ensures "0123456789"[k] as int == '0' as int + k
  {
  }
}
