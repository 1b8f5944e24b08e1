/** `HttpHeader::FieldValue::SemicolonSeparatedAttributes::parse`: the attributes of a Set-Cookie
    or Content-Disposition value. */
module Attributes {
  import opened Text
  import Percent

  // ----- Specification -----

  // After any spaces and semicolons an attribute starts. Its name goes up to the first `;` or
  // `=` that is not its first character. After an equals sign comes a value, without its opening
  // quote if more than that quote is left; it goes up to the first quote or semicolon that is
  // not its first character (an opening quote counting as such), or to the end. A name with an
  // equals sign and nothing after it is dropped.
  function Parse(s: string): seq<Field>
    decreases |s|
  {
    if s == "" then []
    else if s[0] == ' ' || s[0] == ';' then Parse(s[1..])
    else First(s) + Parse(AfterFirst(s))
  }

  // Where a name ends that starts a text, and where a value ends that goes on at position k.
  function NameEnd(s: string): (k: nat)
    requires s != ""
    ensures 0 < k <= |s|
  {
    FindAny(s, 1, {';', '='})
  }

  function ValueEnd(s: string, k: nat): (e: nat)
    requires k <= |s|
    ensures k <= e <= |s|
  {
    FindAny(s, k, {'"', ';'})
  }

  // The attribute at the front of a text, if it is not to be dropped...
  function First(s: string): seq<Field>
    requires s != ""
  {
    var nameEnd := NameEnd(s);
    if nameEnd == |s| || s[nameEnd] == ';' then [Field(s[..nameEnd], "")]
    else if nameEnd + 1 == |s| then []
    else [Field(s[..nameEnd], Percent.Decode(s[ValueStart(s, nameEnd)..ValueEnd(s, nameEnd + 2)]))]
  }

  // ...and what follows it and its last delimiter.
  function AfterFirst(s: string): (rest: string)
    requires s != ""
    ensures |rest| < |s|
  {
    var nameEnd := NameEnd(s);
    var end := if nameEnd + 1 < |s| && s[nameEnd] == '=' then ValueEnd(s, nameEnd + 2) else nameEnd;
    if end < |s| then s[end + 1..] else ""
  }

  function ValueStart(s: string, nameEnd: nat): (k: nat)
    requires nameEnd + 1 < |s|
    ensures nameEnd < k < |s| && k <= nameEnd + 2
  {
    if s[nameEnd + 1] == '"' && nameEnd + 2 < |s| then nameEnd + 2 else nameEnd + 1
  }

  // ----- The code -----

  // The positions of the scanner in front of character c. They stay ordered, so that every
  // slice taken is in range.
  ghost predicate Scanning(s: string, c: nat, nameStart: nat, nameEnd: nat, valueStart: nat) {
    && c <= |s| < NPOS
    && (nameStart == NPOS ==> nameEnd == NPOS)
    && (nameEnd == NPOS ==> valueStart == NPOS)
    && (nameStart != NPOS ==> nameStart < c && s[nameStart] != ' ' && s[nameStart] != ';')
    && (nameStart != NPOS && nameEnd == NPOS ==> forall i :: nameStart < i < c ==> s[i] !in {';', '='})
    && (nameEnd != NPOS ==>
          && nameStart < nameEnd < c && s[nameEnd] == '='
          && forall i :: nameStart < i < nameEnd ==> s[i] !in {';', '='})
    && (nameEnd != NPOS && valueStart == NPOS ==> c == nameEnd + 1)
    && (valueStart != NPOS ==>
          && nameEnd + 2 <= c && valueStart == ValueStart(s, nameEnd)
          && forall i :: nameEnd + 2 <= i < c ==> s[i] !in {'"', ';'})
  }

  // The attributes emplaced so far are those in front of the one being scanned.
  ghost predicate Emplaced(result: seq<Field>, s: string, from: nat) {
    from <= |s| && result + Parse(s[from..]) == Parse(s)
  }

  lemma SkipSeparator(s: string, c: nat)
    requires c < |s| && (s[c] == ' ' || s[c] == ';')
    ensures Parse(s[c..]) == Parse(s[c + 1..])
  {
  }

  lemma NameAt(s: string, from: nat, k: nat)
    requires from < |s| && s[from] != ' ' && s[from] != ';' && from < k <= |s|
    requires (forall i :: from < i < k ==> s[i] !in {';', '='}) && (k < |s| ==> s[k] in {';', '='})
    ensures NameEnd(s[from..]) == k - from && s[from..][..k - from] == s[from..k]
  {
    hide FindAny;
    FindIs(s[from..], 1, {';', '='}, k - from);
  }

  lemma ParseNothing()
    ensures Parse("") == []
  {
  }

  lemma ParseFirst(t: string)
    requires t != "" && t[0] != ' ' && t[0] != ';'
    ensures Parse(t) == First(t) + Parse(AfterFirst(t))
  {
  }

  // A bare name that ends at k.
  lemma BareName(s: string, from: nat, k: nat)
    requires from < |s| && s[from] != ' ' && s[from] != ';' && from < k <= |s|
    requires (forall i :: from < i < k ==> s[i] !in {';', '='}) && (k < |s| ==> s[k] == ';')
    ensures k < |s| ==> Parse(s[from..]) == [Field(s[from..k], "")] + Parse(s[k + 1..])
    ensures k == |s| ==> Parse(s[from..]) == [Field(s[from..k], "")]
  {
    hide *;
    NameAt(s, from, k);
    BareNameFirst(s[from..], k - from);
    ParseFirst(s[from..]);
    ParseNothing();
    if k < |s| {
      assert s[from..][k - from + 1..] == s[k + 1..];
    }
  }

  lemma BareNameFirst(t: string, k: nat)
    requires t != "" && t[0] != ' ' && t[0] != ';' && 0 < k <= |t|
    requires NameEnd(t) == k && (k < |t| ==> t[k] == ';')
    ensures First(t) == [Field(t[..k], "")]
    ensures AfterFirst(t) == if k < |t| then t[k + 1..] else ""
  {
    hide FindAny, ValueStart, Percent.Decode;
  }

  // A name and a value that ends at e, at the front of a text...
  lemma NameAndValueFirst(t: string, k: nat, e: nat)
    requires t != "" && t[0] != ' ' && t[0] != ';' && 0 < k && k + 2 <= e <= |t|
    requires NameEnd(t) == k && t[k] == '=' && ValueEnd(t, k + 2) == e
    ensures First(t) == [Field(t[..k], Percent.Decode(t[ValueStart(t, k)..e]))]
  {
    hide NameEnd, ValueEnd, ValueStart, Percent.Decode;
  }

  lemma AfterNameAndValue(t: string, k: nat, e: nat)
    requires t != "" && 0 < k && k + 2 <= e <= |t|
    requires NameEnd(t) == k && t[k] == '=' && ValueEnd(t, k + 2) == e
    ensures AfterFirst(t) == if e < |t| then t[e + 1..] else ""
  {
    hide NameEnd, ValueEnd;
  }

  // ...and anywhere in it.
  lemma NameAndValue(s: string, from: nat, k: nat, e: nat)
    requires from < |s| && s[from] != ' ' && s[from] != ';' && from < k && k + 2 <= e <= |s|
    requires (forall i :: from < i < k ==> s[i] !in {';', '='}) && s[k] == '='
    requires (forall i :: k + 2 <= i < e ==> s[i] !in {'"', ';'}) && (e < |s| ==> s[e] in {'"', ';'})
    ensures e < |s| ==>
              Parse(s[from..]) == [Field(s[from..k], Percent.Decode(s[ValueStart(s, k)..e]))] + Parse(s[e + 1..])
    ensures e == |s| ==> Parse(s[from..]) == [Field(s[from..k], Percent.Decode(s[ValueStart(s, k)..e]))]
  {
    hide *;
    NameAt(s, from, k);
    ValueAt(s, from, k, e);
    ValueEndAt(s, from, k + 2, e);
    NameAndValueFirst(s[from..], k - from, e - from);
    AfterNameAndValue(s[from..], k - from, e - from);
    ParseFirst(s[from..]);
    if e < |s| {
      assert s[from..][e - from + 1..] == s[e + 1..];
    } else {
      ParseNothing();
    }
  }

  lemma ValueEndAt(s: string, from: nat, k: nat, e: nat)
    requires from <= k <= e <= |s|
    requires (forall i :: k <= i < e ==> s[i] !in {'"', ';'}) && (e < |s| ==> s[e] in {'"', ';'})
    ensures ValueEnd(s[from..], k - from) == e - from
  {
    hide FindAny;
    FindIs(s[from..], k - from, {'"', ';'}, e - from);
  }

  lemma ValueAt(s: string, from: nat, k: nat, e: nat)
    requires from < k && k + 2 <= e <= |s|
    ensures ValueStart(s[from..], k - from) == ValueStart(s, k) - from
    ensures s[from..][ValueStart(s, k) - from..e - from] == s[ValueStart(s, k)..e]
  {
  }

  lemma NoValue(s: string, from: nat, k: nat)
    requires from < |s| && s[from] != ' ' && s[from] != ';' && from < k && k + 1 == |s|
    requires (forall i :: from < i < k ==> s[i] !in {';', '='}) && s[k] == '='
    ensures Parse(s[from..]) == []
  {
    hide Percent.Decode;
    NameAt(s, from, k);
    ParseFirst(s[from..]);
    ParseNothing();
  }

  // ----- The steps of the scanner -----

  lemma Start(s: string)
    requires |s| < NPOS
    ensures Scanning(s, 0, NPOS, NPOS, NPOS) && Emplaced([], s, 0)
  {
  }

  // A character in front of a name.
  lemma BeforeName(s: string, c: nat, result: seq<Field>)
    requires c < |s| < NPOS && Emplaced(result, s, c)
    ensures s[c] != ' ' && s[c] != ';' ==> Scanning(s, c + 1, c, NPOS, NPOS)
    ensures s[c] == ' ' || s[c] == ';' ==> Scanning(s, c + 1, NPOS, NPOS, NPOS) && Emplaced(result, s, c + 1)
  {
  }

  // A character of a name.
  lemma InName(s: string, c: nat, nameStart: nat, result: seq<Field>)
    requires c < |s| && nameStart != NPOS && Scanning(s, c, nameStart, NPOS, NPOS) && Emplaced(result, s, nameStart)
    ensures nameStart < c < NPOS
    ensures s[c] == ';' ==>
              && Scanning(s, c + 1, NPOS, NPOS, NPOS)
              && Emplaced(result + [Field(s[nameStart..c], "")], s, c + 1)
    ensures s[c] == '=' ==> Scanning(s, c + 1, nameStart, c, NPOS)
    ensures s[c] != ';' && s[c] != '=' ==> Scanning(s, c + 1, nameStart, NPOS, NPOS)
  {
    hide Parse, First, AfterFirst, FindAny, ValueStart;
    if s[c] == ';' {
      BareName(s, nameStart, c);
      MoveOne(result, Field(s[nameStart..c], ""), Parse(s[c + 1..]), Parse(s));
    }
  }

  // The character after the equals sign.
  lemma AfterEquals(s: string, c: nat, nameStart: nat, nameEnd: nat)
    requires c < |s| && nameEnd != NPOS && Scanning(s, c, nameStart, nameEnd, NPOS)
    ensures Scanning(s, c + 1, nameStart, nameEnd, if s[c] == '"' && c + 1 < |s| then c + 1 else c)
    ensures c + 1 < NPOS
  {
  }

  // A character after the first one of a value.
  lemma InValue(s: string, c: nat, nameStart: nat, nameEnd: nat, valueStart: nat, result: seq<Field>)
    requires c < |s| && valueStart != NPOS && Scanning(s, c, nameStart, nameEnd, valueStart)
    requires Emplaced(result, s, nameStart)
    ensures nameStart < nameEnd < valueStart <= c
    ensures s[c] == '"' || s[c] == ';' ==>
              && Scanning(s, c + 1, NPOS, NPOS, NPOS)
              && Emplaced(result + [Field(s[nameStart..nameEnd], Percent.Decode(s[valueStart..c]))], s, c + 1)
    ensures s[c] != '"' && s[c] != ';' ==> Scanning(s, c + 1, nameStart, nameEnd, valueStart)
  {
    hide Parse, First, AfterFirst, FindAny, Percent.Decode;
    if s[c] == '"' || s[c] == ';' {
      NameAndValue(s, nameStart, nameEnd, c);
      MoveOne(result, Field(s[nameStart..nameEnd], Percent.Decode(s[valueStart..c])), Parse(s[c + 1..]), Parse(s));
    }
  }

  // std::string::substr(pos, count): the count is cut down to what there is.
  function Substr(s: string, pos: nat, count: nat): string
    requires pos <= |s|
  {
    s[pos..if count < |s| - pos then pos + count else |s|]
  }

  // After the last character: in a bare name,
  lemma EndInName(s: string, nameStart: nat, result: seq<Field>)
    requires nameStart != NPOS && Scanning(s, |s|, nameStart, NPOS, NPOS) && Emplaced(result, s, nameStart)
    ensures nameStart < |s| && result + [Field(s[nameStart..], "")] == Parse(s)
  {
    hide Parse, First, AfterFirst;
    BareName(s, nameStart, |s|);
    assert s[nameStart..|s|] == s[nameStart..];
  }

  // after an equals sign,
  lemma EndAfterEquals(s: string, nameStart: nat, nameEnd: nat, result: seq<Field>)
    requires nameEnd != NPOS && Scanning(s, |s|, nameStart, nameEnd, NPOS) && Emplaced(result, s, nameStart)
    ensures result == Parse(s)
  {
    hide Parse, First, AfterFirst;
    NoValue(s, nameStart, nameEnd);
  }

  // in a value,
  lemma EndInValue(s: string, nameStart: nat, nameEnd: nat, valueStart: nat, result: seq<Field>)
    requires valueStart != NPOS && Scanning(s, |s|, nameStart, nameEnd, valueStart) && Emplaced(result, s, nameStart)
    ensures nameStart < nameEnd < valueStart < |s|
    ensures result + [Field(s[nameStart..nameEnd], Percent.Decode(s[valueStart..]))] == Parse(s)
  {
    hide Parse, First, AfterFirst, Percent.Decode, FindAny;
    NameAndValue(s, nameStart, nameEnd, |s|);
    assert s[valueStart..|s|] == s[valueStart..];
  }

  // The size minus one is count enough, since a value does not start at position 0.
  lemma SubstrToEnd(s: string, pos: nat)
    requires 0 < pos <= |s|
    ensures Substr(s, pos, |s| - 1) == s[pos..]
  {
  }

  // or outside any attribute.
  lemma EndOutside(s: string, result: seq<Field>)
    requires Emplaced(result, s, |s|)
    ensures result == Parse(s)
  {
  }

  method AttributesParse(value: string) returns (result: seq<Field>)
    requires |value| < NPOS
    ensures result == Parse(value)
  {
    hide Scanning, Emplaced, Parse, First, AfterFirst, Percent.Decode;
    result := [];
    var nameStartPos: nat, nameEndPos: nat, valueStartPos: nat := NPOS, NPOS, NPOS;
    Start(value);
    for c := 0 to |value|
      invariant Scanning(value, c, nameStartPos, nameEndPos, valueStartPos)
      invariant nameStartPos == NPOS ==> nameEndPos == NPOS && Emplaced(result, value, c)
      invariant nameStartPos != NPOS ==> Emplaced(result, value, nameStartPos)
      invariant nameEndPos == NPOS ==> valueStartPos == NPOS
    {
      if nameStartPos == NPOS {
        BeforeName(value, c, result);
        if value[c] != ' ' && value[c] != ';' {
          nameStartPos := c;
        }
      } else if nameEndPos == NPOS {
        InName(value, c, nameStartPos, result);
        if value[c] == ';' {
          result := result + [Field(value[nameStartPos..c], "")];
          nameStartPos := NPOS;
        } else if value[c] == '=' {
          nameEndPos := c;
        }
      } else if valueStartPos == NPOS {
        AfterEquals(value, c, nameStartPos, nameEndPos);
        if value[c] == '"' && c + 1 < |value| {
          valueStartPos := c + 1;
        } else {
          valueStartPos := c;
        }
      } else {
        InValue(value, c, nameStartPos, nameEndPos, valueStartPos, result);
        if value[c] == '"' || value[c] == ';' {
          var decoded := Percent.PercentDecode(value[valueStartPos..c]);
          result := result + [Field(value[nameStartPos..nameEndPos], decoded)];
          nameStartPos := NPOS;
          nameEndPos := NPOS;
          valueStartPos := NPOS;
        }
      }
    }
    if nameStartPos != NPOS {
      if nameEndPos == NPOS {
        EndInName(value, nameStartPos, result);
        result := result + [Field(value[nameStartPos..], "")];
      } else if valueStartPos != NPOS {
        EndInValue(value, nameStartPos, nameEndPos, valueStartPos, result);
        SubstrToEnd(value, valueStartPos);
        var decoded;
        if value[|value| - 1] == '"' {
          decoded := Percent.PercentDecode(Substr(value, valueStartPos, |value| - 1));
        } else {
          decoded := Percent.PercentDecode(value[valueStartPos..]);
        }
        result := result + [Field(value[nameStartPos..nameEndPos], decoded)];
      } else {
        EndAfterEquals(value, nameStartPos, nameEndPos, result);
      }
    } else {
      EndOutside(value, result);
    }
  }

  // ----- Parsing what was printed -----

  // An attribute of a header field: `HttpOnly`, or `name="a value"`.
  datatype Attribute = Bare(name: string) | Valued(name: string, value: string)

  ghost predicate BytesOnly(attributes: seq<Attribute>) {
    forall i :: 0 <= i < |attributes| && attributes[i].Valued? ==> Percent.IsByteString(attributes[i].value)
  }

  ghost function Print(a: Attribute): string
    requires a.Valued? ==> Percent.IsByteString(a.value)
  {
    match a
    case Bare(name) => name
    case Valued(name, value) => name + "=" + ("\"" + Percent.Encode(value) + "\"")
  }

  ghost function PrintAll(attributes: seq<Attribute>): string
    requires BytesOnly(attributes)
  {
    if attributes == [] then ""
    else Print(attributes[0]) + if |attributes| == 1 then "" else "; " + PrintAll(attributes[1..])
  }

  ghost function FieldOf(a: Attribute): Field {
    Field(a.name, if a.Valued? then a.value else "")
  }

  ghost function FieldsOf(attributes: seq<Attribute>): (fields: seq<Field>)
    ensures |fields| == |attributes|
    ensures forall i :: 0 <= i < |fields| ==> fields[i] == FieldOf(attributes[i])
  {
    if attributes == [] then [] else [FieldOf(attributes[0])] + FieldsOf(attributes[1..])
  }

  // The names that can be read back. A space inside a name or an equals sign in front of it is
  // no obstacle.
  predicate NameOk(name: string) {
    && name != "" && name[0] != ' ' && name[0] != ';'
    && forall i :: 0 < i < |name| ==> name[i] !in {';', '='}
  }

  // A bare name in front of the end or of the next separator.
  lemma ParsePrintedName(name: string, rest: string)
    requires NameOk(name) && (rest != "" ==> rest[0] == ';')
    ensures Parse(name + rest) == [Field(name, "")] + Parse(rest)
  {
    hide Parse, First, AfterFirst;
    var s := name + rest;
    assert forall i :: 0 <= i < |name| ==> s[i] == name[i];
    BareName(s, 0, |name|);
    assert s[0..] == s && s[0..|name|] == name;
    if rest == "" {
      ParseNothing();
    } else {
      assert s[|name| + 1..] == rest[1..] && rest[0..] == rest;
      SkipSeparator(rest, 0);
    }
  }

  // A value without a quote in front ends at the first quote or semicolon that is not its first character...
  lemma UnquotedValue(name: string, value: string, rest: string)
    requires NameOk(name) && value != "" && value[0] != '"' && Without(value[1..], {'"', ';'})
    requires rest != "" ==> rest[0] == '"' || rest[0] == ';'
    ensures Parse(name + ['='] + (value + rest))
         == [Field(name, Percent.Decode(value))] + Parse(if rest == "" then "" else rest[1..])
  {
    hide Parse, First, AfterFirst, Percent.Decode, FindAny;
    var s := name + ['='] + (value + rest);
    var k, e := |name|, |name| + 1 + |value|;
    assert forall i :: 0 <= i < k ==> s[i] == name[i];
    assert forall i :: k + 2 <= i < e ==> s[i] == value[1..][i - (k + 2)];
    assert s[k + 1] == value[0] && s[0..k] == name && s[k + 1..e] == value && s[0..] == s;
    assert rest != "" ==> s[e] == rest[0] && s[e + 1..] == rest[1..];
    NameAndValue(s, 0, k, e);
    ParseNothing();
  }

  // ...and one with a quote in front at the first of them after that quote,
  lemma QuotedValue(name: string, value: string, rest: string)
    requires NameOk(name) && Without(value, {'"', ';'}) && value + rest != ""
    requires rest != "" ==> rest[0] == '"' || rest[0] == ';'
    ensures Parse(name + ['=', '"'] + (value + rest))
         == [Field(name, Percent.Decode(value))] + Parse(if rest == "" then "" else rest[1..])
  {
    hide Parse, First, AfterFirst, Percent.Decode, FindAny;
    var s := name + ['=', '"'] + (value + rest);
    var k, e := |name|, |name| + 2 + |value|;
    assert |s| == e + |rest| > k + 2;
    assert forall i :: 0 <= i < k ==> s[i] == name[i];
    assert forall i :: k + 2 <= i < e ==> s[i] == value[i - (k + 2)];
    assert s[0..k] == name && s[k + 2..e] == value && s[0..] == s;
    assert rest != "" ==> s[e] == rest[0] && s[e + 1..] == rest[1..];
    NameAndValue(s, 0, k, e);
    ParseNothing();
  }

  // but a quote that ends the text is the value, and an equals sign that does so drops the name.
  lemma NothingBehind(name: string)
    requires NameOk(name)
    ensures Parse(name + ['=']) == [] && Parse(name + ['=', '"']) == [Field(name, "\"")]
  {
    hide Parse, First, AfterFirst, Percent.Decode, FindAny;
    var s, t := name + ['='], name + ['=', '"'];
    var k := |name|;
    assert forall i :: 0 <= i < k ==> s[i] == name[i] && t[i] == name[i];
    assert s[0..] == s && t[0..] == t && t[0..k] == name && t[k + 1..k + 2] == "\"";
    NoValue(s, 0, k);
    NameAndValue(t, 0, k, k + 2);
    Percent.OthersAreDecoded('"', "");
    assert ['"'] + "" == "\"";
  }

  lemma ParsePrintedValue(name: string, value: string, rest: string)
    requires NameOk(name) && Percent.IsByteString(value)
    ensures Parse(name + "=" + ("\"" + Percent.Encode(value) + "\"") + rest) == [Field(name, value)] + Parse(rest)
  {
    hide Parse, First, AfterFirst, Percent.Decode, Percent.Encode, NameOk;
    var v := Percent.Encode(value);
    Percent.EncodedCharacters(value);
    Percent.DecodeEncode(value);
    QuotedValue(name, v, "\"" + rest);
    assert name + "=" + ("\"" + v + "\"") + rest == name + ['=', '"'] + (v + ("\"" + rest));
    assert ("\"" + rest)[1..] == rest;
  }

  lemma ParsePrintedOne(a: Attribute, rest: string)
    requires a.Valued? ==> Percent.IsByteString(a.value)
    requires NameOk(a.name) && (rest != "" ==> rest[0] == ';')
    ensures Parse(Print(a) + rest) == [FieldOf(a)] + Parse(rest)
  {
    hide Parse, First, AfterFirst, NameOk, Percent.Encode;
    match a
    case Bare(name) => ParsePrintedName(name, rest);
    case Valued(name, value) => ParsePrintedValue(name, value, rest);
  }

  lemma {:induction false} RoundTripIf(attributes: seq<Attribute>)
    requires BytesOnly(attributes)
    requires forall i :: 0 <= i < |attributes| ==> NameOk(attributes[i].name)
    ensures Parse(PrintAll(attributes)) == FieldsOf(attributes)
  {
    hide Parse, First, AfterFirst, Print, NameOk, FieldOf;
    if attributes == [] {
      ParseNothing();
    } else {
      var a, others := attributes[0], attributes[1..];
      if others == [] {
        ParseNothing();
        ParsePrintedOne(a, "");
        assert Print(a) + "" == Print(a);
      } else {
        assert forall i :: 0 <= i < |others| ==> others[i] == attributes[i + 1];
        var rest := "; " + PrintAll(others);
        ParsePrintedOne(a, rest);
        SkipSeparator(rest, 0);
        SkipSeparator(rest, 1);
        assert rest[0..] == rest && rest[2..] == PrintAll(others);
        RoundTripIf(others);
      }
    }
  }

  // Every name that the parser returns could be printed again.
  lemma {:induction false} ParsedNames(s: string)
    ensures forall f :: f in Parse(s) ==> NameOk(f.name)
    decreases |s|
  {
    hide First, AfterFirst, NameOk;
    if s == "" {
    } else {
      if s[0] == ' ' || s[0] == ';' {
        ParsedNames(s[1..]);
      } else {
        ParsedNames(AfterFirst(s));
        FirstName(s);
      }
    }
  }

  lemma FirstName(s: string)
    requires s != "" && s[0] != ' ' && s[0] != ';'
    ensures forall f :: f in First(s) ==> NameOk(f.name)
  {
  }

  // Printed attributes parse back to exactly themselves if and only if no name is empty, starts
  // with a space or semicolon, or has a semicolon or an equals sign after its first character.
  lemma RoundTrip(attributes: seq<Attribute>)
    requires BytesOnly(attributes)
    ensures Parse(PrintAll(attributes)) == FieldsOf(attributes)
       <==> forall i :: 0 <= i < |attributes| ==> NameOk(attributes[i].name)
  {
    hide Parse, First, AfterFirst, NameOk, PrintAll;
    if forall i :: 0 <= i < |attributes| ==> NameOk(attributes[i].name) {
      RoundTripIf(attributes);
    }
    if Parse(PrintAll(attributes)) == FieldsOf(attributes) {
      ParsedNames(PrintAll(attributes));
      forall i | 0 <= i < |attributes|
        ensures NameOk(attributes[i].name)
      {
        assert FieldsOf(attributes)[i] in Parse(PrintAll(attributes));
      }
    }
  }
}
